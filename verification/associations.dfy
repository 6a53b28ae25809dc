/**
 Association edges: the (forward, reverse, endpoint) triples an object
 publishes, reduced to the edge's kind and its endpoint, and the split of
 the updater's edge list into its functional edge and the others.
 */
module Associations {
  /** The objects association edges point at: the software object of an
      image (the software object root joined with its id) or the host
      inventory item. */
  datatype ObjectPath = SoftwareObject(id: string) | HostInventory

  /** Inventory: an activation's link to the host inventory item; the others
      are the updater's active, updateable and functional edges. */
  datatype AssocKind = Inventory | ActiveImage | Updateable | Functional

  datatype Association = Association(kind: AssocKind, endpoint: ObjectPath)

  /** The edges of `s` that are functional (or that are not), in order. */
  function Edges(s: seq<Association>, functional: bool): (r: seq<Association>)
    ensures |r| <= |s|
    ensures forall k :: 0 <= k < |r| ==> (r[k].kind == Functional) == functional
  {
    if s == [] then []
    else (if (s[0].kind == Functional) == functional then [s[0]] else [])
         + Edges(s[1..], functional)
  }

  lemma {:induction false} EdgesAppend(a: seq<Association>, b: seq<Association>, functional: bool)
    ensures Edges(a + b, functional) == Edges(a, functional) + Edges(b, functional)
  {
    if a == [] {
      assert a + b == b;
    } else {
      assert (a + b)[0] == a[0];
      assert (a + b)[1..] == a[1..] + b;
      EdgesAppend(a[1..], b, functional);
      var x := if (a[0].kind == Functional) == functional then [a[0]] else [];
      var y, z := Edges(a[1..], functional), Edges(b, functional);
      assert x + (y + z) == (x + y) + z;
    }
  }

  /** Filtering keeps a sequence whose edges all pass and empties one whose
      edges all fail. */
  lemma {:induction false} EdgesOfUniform(s: seq<Association>, functional: bool)
    requires forall k :: 0 <= k < |s| ==> (s[k].kind == Functional) == functional
    ensures Edges(s, functional) == s
    ensures Edges(s, !functional) == []
  {
    if s != [] {
      EdgesOfUniform(s[1..], functional);
    }
  }
}
