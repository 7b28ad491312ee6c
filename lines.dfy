/** Newline-terminated lines of text: joining a sequence of lines, each followed
    by `\n`, and splitting text back into its lines. */
module Lines {

  predicate NoNewline(l: string) {
    '\n' !in l
  }

  /** Each line followed by a newline, in order. */
  function JoinLines(ls: seq<string>): string {
    if ls == [] then "" else ls[0] + "\n" + JoinLines(ls[1..])
  }

  /** The index of the first newline in `s`, or `|s|` when there is none. */
  function LineEnd(s: string): (i: nat)
    ensures i <= |s| && NoNewline(s[..i])
    ensures i < |s| ==> s[i] == '\n'
  {
    if s == [] || s[0] == '\n' then 0 else 1 + LineEnd(s[1..])
  }

  /** The lines of `s`, without their newlines; a last line with no newline
      after it is kept. */
  function SplitLines(s: string): seq<string>
    decreases |s|
  {
    if s == [] then []
    else
      var i := LineEnd(s);
      if i == |s| then [s] else [s[..i]] + SplitLines(s[i + 1..])
  }

  lemma {:induction false} JoinLinesAppend(a: seq<string>, b: seq<string>)
    ensures JoinLines(a + b) == JoinLines(a) + JoinLines(b)
  {
    if a != [] {
      assert (a + b)[1..] == a[1..] + b;
      JoinLinesAppend(a[1..], b);
    } else {
      assert a + b == b;
    }
  }

  lemma JoinTwoLines(a: string, b: string)
    ensures JoinLines([a, b]) == a + "\n" + b + "\n"
  {
    assert [a, b][1..] == [b];
    assert [b][1..] == [];
    assert JoinLines([b]) == b + "\n";
    assert a + "\n" + (b + "\n") == a + "\n" + b + "\n";
  }

  /** Joining one more line appends it and its newline. */
  lemma JoinLinesSnoc(ls: seq<string>, k: nat)
    requires k < |ls|
    ensures JoinLines(ls[..k + 1]) == JoinLines(ls[..k]) + ls[k] + "\n"
  {
    assert ls[..k + 1] == ls[..k] + [ls[k]];
    JoinLinesAppend(ls[..k], [ls[k]]);
    assert [ls[k]][1..] == [];
  }

  lemma {:induction false} LineEndAfter(l: string, rest: string)
    requires NoNewline(l)
    ensures LineEnd(l + "\n" + rest) == |l|
  {
    if l != [] {
      assert (l + "\n" + rest)[1..] == l[1..] + "\n" + rest;
      LineEndAfter(l[1..], rest);
    }
  }

  /** Splitting undoes joining when no line holds a newline of its own. */
  lemma {:induction false} SplitJoin(ls: seq<string>)
    requires forall k :: 0 <= k < |ls| ==> NoNewline(ls[k])
    ensures SplitLines(JoinLines(ls)) == ls
  {
    if ls != [] {
      var rest := JoinLines(ls[1..]);
      var s := ls[0] + "\n" + rest;
      LineEndAfter(ls[0], rest);
      assert s[..|ls[0]|] == ls[0];
      assert s[|ls[0]| + 1..] == rest;
      SplitJoin(ls[1..]);
      assert ls == [ls[0]] + ls[1..];
    }
  }
}
