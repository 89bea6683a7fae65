/** `get_input`: keep asking until the operator types one of the valid
    responses. The console is a finite sequence of typed lines; running
    out of lines is where Python's `input` raises `EOFError`. */
module Prompt {
  import opened Wrappers

  /** The response read, and how many lines it took to read it. */
  datatype Reply = Reply(answer: string, used: nat)

  /** The first valid line, or None when no line is valid. Every line
      before the one returned was rejected. */
  function GetInput(lines: seq<string>, valid: set<string>): (r: Option<Reply>)
    ensures r.Some? ==> 1 <= r.value.used <= |lines| && lines[r.value.used - 1] == r.value.answer
    ensures r.Some? ==> r.value.answer in valid
    ensures r.Some? ==> forall j | 0 <= j < r.value.used - 1 :: lines[j] !in valid
    ensures r.None? <==> forall j | 0 <= j < |lines| :: lines[j] !in valid
    decreases |lines|
  {
    if lines == [] then None
    else if lines[0] in valid then Some(Reply(lines[0], 1))
    else
      match GetInput(lines[1..], valid)
      case None => None
      case Some(Reply(answer, used)) => Some(Reply(answer, used + 1))
  }

  /** A reply read after `skipped` further rejected lines. */
  function Later(r: Option<Reply>, skipped: nat): Option<Reply>
  {
    match r
    case None => None
    case Some(Reply(answer, used)) => Some(Reply(answer, used + skipped))
  }

  /** Rejected lines at the front only delay the reply. */
  lemma {:induction false} GetInputSkips(lines: seq<string>, valid: set<string>, k: nat)
    requires k <= |lines|
    requires forall j | 0 <= j < k :: lines[j] !in valid
    ensures GetInput(lines, valid) == Later(GetInput(lines[k..], valid), k)
    decreases k
  {
    if k > 0 {
      assert lines[1..][k - 1..] == lines[k..];
      assert GetInput(lines, valid) == Later(GetInput(lines[1..], valid), 1);
      GetInputSkips(lines[1..], valid, k - 1);
    }
  }

  /** Asking for a narrower set of responses reads the first line valid
      for it: a reply valid for both sets is read at the same line. */
  lemma GetInputNarrowed(lines: seq<string>, wide: set<string>, narrow: set<string>)
    requires narrow <= wide
    requires GetInput(lines, wide).Some? && GetInput(lines, wide).value.answer in narrow
    ensures GetInput(lines, narrow) == GetInput(lines, wide)
  {
    var used := GetInput(lines, wide).value.used;
    GetInputSkips(lines, narrow, used - 1);
    assert lines[used - 1..][0] == lines[used - 1];
  }
}
