/**
  Splitting text into lines the way Rust's `str::lines` does for text without
  carriage returns: lines are separated by '\n', a final '\n' does not start
  an extra empty line, and the empty string has no lines at all.
 */
module TextLines {

  /** Index of the first '\n' in `s`, or |s| when there is none. */
  function LineEnd(s: string): (k: nat)
    ensures k <= |s|
    ensures k < |s| ==> s[k] == '\n'
    ensures '\n' !in s[..k]
  {
    if s == [] then 0
    else if s[0] == '\n' then 0
    else
      var k := 1 + LineEnd(s[1..]);
      assert s[..k] == [s[0]] + s[1..][..k - 1];
      k
  }

  /** The lines of `s`, none of them holding a '\n'. */
  function Lines(s: string): (ls: seq<string>)
    ensures forall i :: 0 <= i < |ls| ==> '\n' !in ls[i]
    decreases |s|
  {
    if s == [] then []
    else
      var k := LineEnd(s);
      if k == |s| then [s] else [s[..k]] + Lines(s[k + 1..])
  }

  /** The inverse direction: every line followed by '\n'. */
  function Join(ls: seq<string>): string
  {
    if ls == [] then "" else ls[0] + "\n" + Join(ls[1..])
  }

  /** Joining the lines gives the text back, with a '\n' added when the text
      did not already end in one. */
  lemma {:induction false} JoinOfLines(s: string)
    ensures Join(Lines(s)) == if s == [] || s[|s| - 1] == '\n' then s else s + "\n"
    decreases |s|
  {
    if s != [] {
      var k := LineEnd(s);
      if k == |s| {
        assert Lines(s) == [s];
        assert Join([s]) == s + "\n" + Join([]);
      } else {
        var line, rest := s[..k], s[k + 1..];
        assert s == line + "\n" + rest;
        assert Lines(s) == [line] + Lines(rest);
        assert Join(Lines(s)) == line + "\n" + Join(Lines(rest));
        JoinOfLines(rest);
        if rest != [] {
          assert s[|s| - 1] == rest[|rest| - 1];
          if rest[|rest| - 1] != '\n' {
            assert line + "\n" + (rest + "\n") == s + "\n";
          }
        }
      }
    }
  }

  /** Splitting joined lines gives the same lines back. */
  lemma {:induction false} LinesOfJoin(ls: seq<string>)
    requires forall i :: 0 <= i < |ls| ==> '\n' !in ls[i]
    ensures Lines(Join(ls)) == ls
  {
    if ls != [] {
      var s := Join(ls);
      var head := ls[0];
      assert s == head + ("\n" + Join(ls[1..]));
      LineEndOf(head, "\n" + Join(ls[1..]));
      assert s[|head| + 1..] == Join(ls[1..]);
      assert s[..|head|] == head;
      LinesOfJoin(ls[1..]);
    }
  }

  /** The first line ends where the first line break is. */
  lemma {:induction false} LineEndOf(head: string, tail: string)
    requires '\n' !in head
    requires tail != [] && tail[0] == '\n'
    ensures LineEnd(head + tail) == |head|
    decreases |head|
  {
    if head != [] {
      assert (head + tail)[1..] == head[1..] + tail;
      LineEndOf(head[1..], tail);
    }
  }
}
