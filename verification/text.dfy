/**
 The character-search and line-splitting primitives that the partition parser
 relies on: `std::string::find`, `find_first_not_of` and `std::getline` on an
 `istringstream`, each stated as a total function over sequences.
 */
module Text {
  import opened Wrappers

  /** Index of the first element of `s` equal to `c`, as `std::string::find`;
      `None` plays the role of `npos`. */
  function Find<T(==)>(s: seq<T>, c: T): (r: Option<nat>)
    ensures r.None? <==> c !in s
    ensures r.Some? ==> r.value < |s| && s[r.value] == c
    ensures r.Some? ==> forall k :: 0 <= k < r.value ==> s[k] != c
  {
    FindFrom(s, c, 0)
  }

  /** The scan behind `Find`, from position `from` on. */
  function FindFrom<T(==)>(s: seq<T>, c: T, from: nat): (r: Option<nat>)
    requires from <= |s|
    requires forall k :: 0 <= k < from ==> s[k] != c
    ensures r.None? <==> c !in s
    ensures r.Some? ==> from <= r.value < |s| && s[r.value] == c
    ensures r.Some? ==> forall k :: 0 <= k < r.value ==> s[k] != c
    decreases |s| - from
  {
    if from == |s| then None
    else if s[from] == c then Some(from)
    else FindFrom(s, c, from + 1)
  }

  /** Index of the first element of `s` different from `c`, as
      `std::string::find_first_not_of`. */
  function FindNot<T(==)>(s: seq<T>, c: T): (r: Option<nat>)
    ensures r.None? <==> forall k :: 0 <= k < |s| ==> s[k] == c
    ensures r.Some? ==> r.value < |s| && s[r.value] != c
    ensures r.Some? ==> forall k :: 0 <= k < r.value ==> s[k] == c
  {
    FindNotFrom(s, c, 0)
  }

  /** The scan behind `FindNot`, from position `from` on. */
  function FindNotFrom<T(==)>(s: seq<T>, c: T, from: nat): (r: Option<nat>)
    requires from <= |s|
    requires forall k :: 0 <= k < from ==> s[k] == c
    ensures r.None? <==> forall k :: 0 <= k < |s| ==> s[k] == c
    ensures r.Some? ==> from <= r.value < |s| && s[r.value] != c
    ensures r.Some? ==> forall k :: 0 <= k < r.value ==> s[k] == c
    decreases |s| - from
  {
    if from == |s| then None
    else if s[from] != c then Some(from)
    else FindNotFrom(s, c, from + 1)
  }

  /** A position that holds `c` with no `c` before it is what `Find` returns. */
  lemma FindIsFirst<T>(s: seq<T>, c: T, i: nat)
    requires i < |s| && s[i] == c
    requires forall k :: 0 <= k < i ==> s[k] != c
    ensures Find(s, c) == Some(i)
  {
    assert c in s;
  }

  /** A position that differs from `c` with only `c` before it is what
      `FindNot` returns. */
  lemma FindNotIsFirst<T>(s: seq<T>, c: T, i: nat)
    requires i < |s| && s[i] != c
    requires forall k :: 0 <= k < i ==> s[k] == c
    ensures FindNot(s, c) == Some(i)
  {
  }

  /** The lines `std::getline` extracts, one call after the other, from a
      stream over `s`: each ends before a newline, and a final segment is a
      line only when it is not empty (an extraction that reaches the end of
      the stream without taking a character fails and ends the scan). */
  function Lines(s: string): (ls: seq<string>)
    ensures forall k :: 0 <= k < |ls| ==> '\n' !in ls[k]
    decreases |s|
  {
    if s == [] then []
    else match Find(s, '\n')
      case None => [s]
      case Some(i) => [s[..i]] + Lines(s[i + 1..])
  }

  /** Writes each line followed by a newline: the listing a line-oriented
      tool prints. */
  function Unlines(ls: seq<string>): string
  {
    if ls == [] then [] else ls[0] + "\n" + Unlines(ls[1..])
  }

  /** Splitting what `Unlines` wrote gives back the lines. */
  lemma {:induction false} LinesOfUnlines(ls: seq<string>)
    requires forall k :: 0 <= k < |ls| ==> '\n' !in ls[k]
    ensures Lines(Unlines(ls)) == ls
  {
    if ls != [] {
      var l := ls[0];
      var s := Unlines(ls);
      var rest := Unlines(ls[1..]);
      assert s == l + "\n" + rest;
      assert s[|l|] == '\n';
      assert forall k :: 0 <= k < |l| ==> s[k] == l[k] && s[k] != '\n';
      FindIsFirst(s, '\n', |l|);
      assert s[..|l|] == l;
      assert s[|l| + 1..] == rest;
      LinesOfUnlines(ls[1..]);
      assert Lines(s) == [l] + Lines(rest);
    }
  }

  /** `s` with a newline added unless it is empty or already ends in one. */
  function Terminated(s: string): string
  {
    if s == [] || s[|s| - 1] == '\n' then s else s + "\n"
  }

  /** Re-joining the lines of `s` gives `s` back, up to the newline that a
      last unterminated line lacks. */
  lemma {:induction false} UnlinesOfLines(s: string)
    ensures Unlines(Lines(s)) == Terminated(s)
    decreases |s|
  {
    if s != [] {
      match Find(s, '\n')
      case None =>
        assert Lines(s) == [s];
        assert Unlines([s]) == s + "\n" + Unlines([]);
      case Some(i) =>
        var rest := s[i + 1..];
        UnlinesOfLines(rest);
        assert Lines(s) == [s[..i]] + Lines(rest);
        assert Unlines(Lines(s)) == s[..i] + "\n" + Unlines(Lines(rest));
        TerminatedSplit(s, i);
    }
  }

  /** Terminating a string that holds a newline at `i` terminates what
      follows that newline. */
  lemma TerminatedSplit(s: string, i: nat)
    requires i < |s| && s[i] == '\n'
    ensures Terminated(s) == s[..i] + "\n" + Terminated(s[i + 1..])
  {
    var rest := s[i + 1..];
    assert s == s[..i] + "\n" + rest;
    if rest != [] {
      assert s[|s| - 1] == rest[|rest| - 1];
    }
  }
}
