/** The two console prompts that `capture_faces` and the capture session share.
    Standard input is a sequence of lines read from a cursor; running out of
    lines is what makes Python's `input()` raise EOFError. */
module Prompts {
  import opened Text
  import opened Registry

  /** A reply the label prompt accepts: non-empty after `strip()` and not
      already a key of the registry. */
  ghost predicate AcceptsLabel(reg: Registry, line: string)
  {
    Strip(line) != "" && Strip(line) !in Labels(reg)
  }

  /** A reply the yes/no prompt accepts: lower-cased (not stripped), it is
      "yes" or "no". */
  ghost predicate AcceptsChoice(line: string)
  {
    Lower(line) == "yes" || Lower(line) == "no"
  }

  /** Line `at` is the first line from `from` on that the label prompt
      accepts against `reg`. */
  ghost predicate FirstLabelAt(reg: Registry, lines: seq<string>, from: int, at: int)
  {
    && 0 <= from <= at < |lines|
    && AcceptsLabel(reg, lines[at])
    && forall j :: from <= j < at ==> !AcceptsLabel(reg, lines[j])
  }

  /** Line `at` is the first line from `from` on that the yes/no prompt
      accepts, or `|lines|` when no line does. */
  ghost predicate FirstChoiceAt(lines: seq<string>, from: int, at: int)
  {
    && 0 <= from <= at <= |lines|
    && (at < |lines| ==> AcceptsChoice(lines[at]))
    && forall j :: from <= j < at ==> !AcceptsChoice(lines[j])
  }

  /** "Enter unique label for this face": reads lines from `start` until one is
      accepted and returns it stripped. `next` is the cursor after the lines
      read; `None` means standard input ran out first. */
  method PromptLabel(reg: Registry, lines: seq<string>, start: nat) returns (name: Option<string>, next: nat)
    requires start <= |lines|
    ensures start <= next <= |lines|
    ensures name.Some? ==> start < next && AcceptsLabel(reg, lines[next - 1])
    ensures name.Some? ==> name.value == Strip(lines[next - 1])
    ensures name.Some? ==> name.value != "" && name.value !in Labels(reg)
    ensures name.Some? ==> forall j :: start <= j < next - 1 ==> !AcceptsLabel(reg, lines[j])
    ensures name.None? ==> next == |lines| && forall j :: start <= j < |lines| ==> !AcceptsLabel(reg, lines[j])
  {
    next := start;
    while next < |lines|
      invariant start <= next <= |lines|
      invariant forall j :: start <= j < next ==> !AcceptsLabel(reg, lines[j])
    {
      var candidate := Strip(lines[next]);
      next := next + 1;
      if candidate != "" && candidate !in Labels(reg) {
        return Some(candidate), next;
      }
    }
    return None, next;
  }

  /** "Do you want to add another face? (yes/no)": reads lines from `start`
      until one lowers to "yes" or "no"; `Some(true)` is yes, `Some(false)` is
      no, `None` means standard input ran out first. */
  method PromptChoice(lines: seq<string>, start: nat) returns (more: Option<bool>, next: nat)
    requires start <= |lines|
    ensures start <= next <= |lines|
    ensures more.Some? ==> start < next && AcceptsChoice(lines[next - 1])
    ensures more.Some? ==> (more.value <==> Lower(lines[next - 1]) == "yes")
    ensures more.Some? ==> forall j :: start <= j < next - 1 ==> !AcceptsChoice(lines[j])
    ensures more.None? ==> next == |lines| && forall j :: start <= j < |lines| ==> !AcceptsChoice(lines[j])
  {
    next := start;
    while next < |lines|
      invariant start <= next <= |lines|
      invariant forall j :: start <= j < next ==> !AcceptsChoice(lines[j])
    {
      var choice := Lower(lines[next]);
      next := next + 1;
      if choice == "yes" || choice == "no" {
        return Some(choice == "yes"), next;
      }
    }
    return None, next;
  }
}
