/**
 The reset-candidate parser of the static-layout updater: it reads the
 partition listing printed by `pflash -i` and keeps, in listing order, the
 partitions flagged for reprovisioning (`F`), each with whether its clear
 must preserve ECC (`E`). A listing line looks like

   ID=06 MVPD 0x0012d000..0x001bd000 (actual=0x00090000) [E--P--F-C-]
 */
module PartitionInventory {
  import opened Wrappers
  import opened Text

  /** A partition to clear and whether the clear must be the ECC-aware one. */
  datatype PartClear = PartClear(name: string, ecc: bool)

  /** The flag field of a line: everything from its first `[` to its end,
      or nothing when the line has no `[`. */
  function FlagField(line: string): string
  {
    match Find(line, '[')
    case None => []
    case Some(b) => line[b..]
  }

  /** The name field of a line: the token after the first space, past any
      further spaces, up to the next space; `None` when one of these three
      delimiters is missing. */
  function PartName(line: string): Option<string>
  {
    match Find(line, ' ')
    case None => None
    case Some(i) =>
      var afterId := line[i..];
      match FindNot(afterId, ' ')
      case None => None
      case Some(j) =>
        var rest := afterId[j..];
        match Find(rest, ' ')
        case None => None
        case Some(k) => Some(rest[..k])
  }

  /** One line of the listing, as the loop body of the parser treats it:
      skipped unless its flag field holds `F`, skipped when its name field
      is missing, and otherwise the named partition with the ECC bit read
      from the flag field. */
  function ParseLine(line: string): (r: Option<PartClear>)
    ensures r.Some? ==> '[' in line && 'F' in FlagField(line)
    ensures r.Some? ==> (r.value.ecc <==> 'E' in FlagField(line))
  {
    var flags := FlagField(line);
    if 'F' !in flags then None
    else match PartName(line)
      case None => None
      case Some(name) => Some(PartClear(name, 'E' in flags))
  }

  /** Where a partition name sits in a line: the line has no space before
      position `i`, only spaces from `i` up to `j`, then `name` (not empty, no
      space in it), then a space. */
  ghost predicate NameAt(line: string, i: nat, j: nat, name: string)
  {
    && i < j
    && j + |name| < |line|
    && (forall t :: 0 <= t < i ==> line[t] != ' ')
    && (forall t :: i <= t < j ==> line[t] == ' ')
    && name != []
    && (forall t :: 0 <= t < |name| ==> name[t] != ' ')
    && line[j..j + |name|] == name
    && line[j + |name|] == ' '
  }

  /** A name the parser extracts sits where `NameAt` says. */
  lemma PartNameSound(line: string, name: string)
    requires PartName(line) == Some(name)
    ensures exists i: nat, j: nat :: NameAt(line, i, j, name)
  {
    var i := Find(line, ' ').value;
    var j' := FindNot(line[i..], ' ').value;
    var k := Find(line[i..][j'..], ' ').value;
    NameAtIntro(line, i, j', k);
    assert NameAt(line, i, i + j', name);
  }

  /** The three delimiters the parser finds place its name as `NameAt`
      says. */
  lemma NameAtIntro(line: string, i: nat, j': nat, k: nat)
    requires i < |line| && Find(line, ' ') == Some(i)
    requires j' < |line[i..]| && FindNot(line[i..], ' ') == Some(j')
    requires k < |line[i..][j'..]| && Find(line[i..][j'..], ' ') == Some(k)
    ensures NameAt(line, i, i + j', line[i..][j'..][..k])
  {
    var j := i + j';
    var rest := line[i..][j'..];
    assert rest == line[j..];
    var name := rest[..k];
    assert line[i..][0] == ' ';
    assert forall t :: i <= t < j ==> line[t] == line[i..][t - i];
    assert forall t :: 0 <= t < k ==> name[t] == rest[t];
    assert line[j..j + k] == name;
  }

  /** A name placed where `NameAt` says is what the parser extracts. */
  lemma PartNameComplete(line: string, i: nat, j: nat, name: string)
    requires NameAt(line, i, j, name)
    ensures PartName(line) == Some(name)
  {
    FindIsFirst(line, ' ', i);
    var afterId := line[i..];
    assert forall t :: 0 <= t < |afterId| ==> afterId[t] == line[i + t];
    FindNotIsFirst(afterId, ' ', j - i);
    var rest := afterId[j - i..];
    assert forall t :: 0 <= t < |rest| ==> rest[t] == line[j + t];
    assert forall t :: 0 <= t < |name| ==> rest[t] == name[t];
    FindIsFirst(rest, ' ', |name|);
    assert rest[..|name|] == name;
  }

  /** Exactly the lines whose flag field holds `F` and whose name field is
      delimited by spaces yield an entry, and the entry is that name with the
      ECC bit read from the same flag field. */
  lemma ParseLineExactly(line: string, p: PartClear)
    ensures ParseLine(line) == Some(p) <==>
      && 'F' in FlagField(line)
      && (p.ecc <==> 'E' in FlagField(line))
      && exists i: nat, j: nat :: NameAt(line, i, j, p.name)
  {
    if ParseLine(line) == Some(p) {
      PartNameSound(line, p.name);
    }
    if exists i: nat, j: nat :: NameAt(line, i, j, p.name) {
      var i: nat, j: nat :| NameAt(line, i, j, p.name);
      PartNameComplete(line, i, j, p.name);
    }
  }

  /** An entry names its partition by a non-empty token without spaces. */
  lemma EntryNameIsToken(line: string, p: PartClear)
    requires ParseLine(line) == Some(p)
    ensures p.name != [] && ' ' !in p.name
  {
    PartNameSound(line, p.name);
  }

  /** What each line of a listing parses to, line by line. */
  function ParseAll(lines: seq<string>): (r: seq<Option<PartClear>>)
    ensures |r| == |lines|
    ensures forall k :: 0 <= k < |lines| ==> r[k] == ParseLine(lines[k])
  {
    MapSeq(ParseLine, lines)
  }

  function MapSeq<A, B>(f: A -> B, s: seq<A>): (r: seq<B>)
    ensures |r| == |s|
    ensures forall k :: 0 <= k < |s| ==> r[k] == f(s[k])
  {
    seq(|s|, k requires 0 <= k < |s| => f(s[k]))
  }

  lemma MapSeqAppend<A, B>(f: A -> B, a: seq<A>, b: seq<A>)
    ensures MapSeq(f, a + b) == MapSeq(f, a) + MapSeq(f, b)
  {
  }

  /** The present values of a sequence of options, in order. */
  function Present<T>(os: seq<Option<T>>): (r: seq<T>)
    ensures |r| <= |os|
  {
    if os == [] then [] else AsSeq(os[0]) + Present(os[1..])
  }

  function AsSeq<T>(o: Option<T>): seq<T>
  {
    match o
    case None => []
    case Some(v) => [v]
  }

  /** The partitions to clear named by a `pflash -i` listing: exactly what
      its lines parse to, at most one entry per line. */
  function GetPartsToClear(info: string): (r: seq<PartClear>)
    ensures |r| <= |Lines(info)|
    ensures forall p :: p in r <==>
      exists k :: 0 <= k < |Lines(info)| && ParseLine(Lines(info)[k]) == Some(p)
  {
    var os := ParseAll(Lines(info));
    assert forall p :: p in Present(os) <==> exists k :: 0 <= k < |os| && os[k] == Some(p) by {
      forall p
        ensures p in Present(os) <==> exists k :: 0 <= k < |os| && os[k] == Some(p)
      {
        PresentMembers(os, p);
      }
    }
    Present(os)
  }

  /** Taking the present values of two runs takes them of each in turn:
      entries keep their relative order. */
  lemma {:induction false} PresentAppend<T>(a: seq<Option<T>>, b: seq<Option<T>>)
    ensures Present(a + b) == Present(a) + Present(b)
  {
    if a == [] {
      assert a + b == b;
    } else {
      assert (a + b)[0] == a[0];
      assert (a + b)[1..] == a[1..] + b;
      PresentAppend(a[1..], b);
      var x, y, z := AsSeq(a[0]), Present(a[1..]), Present(b);
      assert x + (y + z) == (x + y) + z;
    }
  }

  /** A value is present exactly when some option holds it. */
  lemma {:induction false} PresentMembers<T>(os: seq<Option<T>>, v: T)
    ensures v in Present(os) <==> exists k :: 0 <= k < |os| && os[k] == Some(v)
  {
    if os != [] {
      PresentMembers(os[1..], v);
      assert Present(os) == AsSeq(os[0]) + Present(os[1..]);
      if v in Present(os[1..]) {
        var k :| 0 <= k < |os[1..]| && os[1..][k] == Some(v);
        assert os[k + 1] == Some(v);
      }
      if exists k :: 0 <= k < |os| && os[k] == Some(v) {
        var k :| 0 <= k < |os| && os[k] == Some(v);
        if k > 0 {
          assert os[1..][k - 1] == Some(v);
        }
      }
    }
  }

  /** Every entry of a listing names a partition by a non-empty token
      without spaces. */
  lemma PartNamesAreTokens(info: string)
    ensures forall p :: p in GetPartsToClear(info) ==> p.name != [] && ' ' !in p.name
  {
    var ls := Lines(info);
    forall p | p in GetPartsToClear(info)
      ensures p.name != [] && ' ' !in p.name
    {
      PresentMembers(ParseAll(ls), p);
      var k :| 0 <= k < |ls| && ParseAll(ls)[k] == Some(p);
      EntryNameIsToken(ls[k], p);
    }
  }

  /** A listing the tool prints line by line yields the entries its lines
      parse to, in line order. */
  lemma PartsOfListing(lines: seq<string>)
    requires forall k :: 0 <= k < |lines| ==> '\n' !in lines[k]
    ensures GetPartsToClear(Unlines(lines)) == Present(ParseAll(lines))
  {
    LinesOfUnlines(lines);
  }

  /** A partition is among the entries of some lines exactly when one of
      those lines parses to it. */
  lemma EntriesOfLines(lines: seq<string>, p: PartClear)
    ensures p in Present(ParseAll(lines)) <==>
      exists k :: 0 <= k < |lines| && ParseLine(lines[k]) == Some(p)
  {
    PresentMembers(ParseAll(lines), p);
  }

  /** Each line contributes what `ParseLine` makes of it, in its place, and
      does not disturb the entries of the lines around it. */
  lemma EntriesFollowLineOrder(before: seq<string>, line: string, after: seq<string>)
    ensures Present(ParseAll(before + [line] + after))
         == Present(ParseAll(before)) + AsSeq(ParseLine(line)) + Present(ParseAll(after))
  {
    var a, o, b := ParseAll(before), ParseLine(line), ParseAll(after);
    assert ParseAll(before + [line] + after) == a + [o] + b by {
      MapSeqAppend(ParseLine, before + [line], after);
      MapSeqAppend(ParseLine, before, [line]);
      assert MapSeq(ParseLine, [line]) == [o];
    }
    PresentAround(a, o, b);
  }

  /** The present values around one option. */
  lemma PresentAround<T>(a: seq<Option<T>>, o: Option<T>, b: seq<Option<T>>)
    ensures Present(a + [o] + b) == Present(a) + AsSeq(o) + Present(b)
  {
    PresentAppend(a + [o], b);
    PresentAppend(a, [o]);
    assert Present([o]) == AsSeq(o) + Present([]);
  }
}
