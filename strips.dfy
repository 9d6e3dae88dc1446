/**
 * The strips of the mixer and the order the strip pack keeps them in.
 *
 * The pack is an Fl_Group: a widget is its child at most once, `find`
 * gives a child's position (or the child count when it is not a child),
 * `remove` takes a child out, and `insert(o, before)` places `o` in front
 * of `before`, taking `o` out of its old place first.
 */
module Strips {
  import opened Options

  /**
   * A mixer strip as the mixer sees it. `id` stands for the strip object's
   * identity (the C++ code compares strip pointers); `w` and `h` are the
   * widget's size; `outputs` are the output port names the strip reports
   * through get_output_ports.
   */
  datatype Strip = Strip(id: nat, name: string, w: int, h: int, groupAffinity: bool, outputs: seq<string>)

  /** A strip group; `id` stands for the Group object's identity. */
  datatype Group = Group(id: nat, name: string)

  /** No strip object is a child of the pack twice. */
  predicate DistinctIds(s: seq<Strip>) {
    forall i, j :: 0 <= i < j < |s| ==> s[i].id != s[j].id
  }

  /** Fl_Group::find: the position of the strip with identity `id`, or |s| when it is not a child. */
  function IndexOf(s: seq<Strip>, id: nat): (k: nat)
    ensures k <= |s|
    ensures k < |s| ==> s[k].id == id
    ensures forall j :: 0 <= j < k ==> s[j].id != id
  {
    if s == [] then 0 else if s[0].id == id then 0 else 1 + IndexOf(s[1..], id)
  }

  lemma IndexOfDistinct(s: seq<Strip>, i: nat)
    requires DistinctIds(s) && i < |s|
    ensures IndexOf(s, s[i].id) == i
  {
  }

  /** `s` without its element at `k`. */
  function Without(s: seq<Strip>, k: nat): (r: seq<Strip>)
    requires k < |s|
    ensures |r| == |s| - 1
    ensures forall a :: 0 <= a < |r| ==> r[a] == if a < k then s[a] else s[a + 1]
  {
    s[..k] + s[k + 1..]
  }

  /** `t` with `c` put in at position `j`. */
  function With(t: seq<Strip>, j: nat, c: Strip): (r: seq<Strip>)
    requires j <= |t|
    ensures |r| == |t| + 1 && r[j] == c
    ensures forall a :: 0 <= a < |r| ==> r[a] == if a < j then t[a] else if a == j then c else t[a - 1]
  {
    t[..j] + [c] + t[j..]
  }

  /** The first strip with identity `id` stands at `k`. */
  lemma IndexOfAt(s: seq<Strip>, id: nat, k: nat)
    requires k < |s| && s[k].id == id
    requires forall a :: 0 <= a < k ==> s[a].id != id
    ensures IndexOf(s, id) == k
  {
  }

  /** Fl_Group::remove(widget): the pack without the child with identity `id`; unchanged when there is none. */
  function Removed(s: seq<Strip>, id: nat): seq<Strip> {
    var k := IndexOf(s, id);
    if k < |s| then Without(s, k) else s
  }

  /** The strip object `m` stands for: the pack's own record of it when it is a child, else `m`. */
  function Current(s: seq<Strip>, m: Strip): Strip {
    var k := IndexOf(s, m.id);
    if k < |s| then s[k] else m
  }

  /** Where Fl_Group::insert(o, before) puts `o`: at the position of `before`, or at the end when it is not a child. */
  function PositionOf(s: seq<Strip>, before: Option<nat>): nat {
    if before.Some? then IndexOf(s, before.value) else |s|
  }

  /**
   * Fl_Group::insert(m, before), `before` given by its identity (None for a
   * NULL pointer): inserting a child in front of itself changes nothing;
   * otherwise `m` leaves its old place and goes in front of `before`, or to
   * the end when `before` is not a child.
   */
  function Placed(s: seq<Strip>, m: Strip, before: Option<nat>): seq<Strip> {
    if IndexOf(s, m.id) < |s| && before == Some(m.id) then s
    else
      var t := Removed(s, m.id);
      With(t, PositionOf(t, before), Current(s, m))
  }

  /** `s` with the strips at `i` and `i + 1` exchanged. */
  function Swapped(s: seq<Strip>, i: nat): (r: seq<Strip>)
    requires i + 1 < |s|
  {
    s[i := s[i + 1]][i + 1 := s[i]]
  }

  /** The names of the entries of `s`, in order, `name` giving each entry's name. */
  function Names<T>(s: seq<T>, name: T -> string): (names: seq<string>)
    ensures |names| == |s| && forall i :: 0 <= i < |s| ==> names[i] == name(s[i])
  {
    seq(|s|, i requires 0 <= i < |s| => name(s[i]))
  }

  /** std::list::remove(g): every entry for the group object `id` is dropped, the others keep their order. */
  function WithoutGroup(g: seq<Group>, id: nat): (r: seq<Group>)
    ensures forall x :: x in r <==> x in g && x.id != id
    ensures |r| <= |g|
  {
    if g == [] then []
    else if g[0].id == id then WithoutGroup(g[1..], id)
    else [g[0]] + WithoutGroup(g[1..], id)
  }

  /** std::list::remove works entry by entry: removing from two runs one after the other removes from each, in order. */
  lemma {:induction false} WithoutGroupOfConcat(a: seq<Group>, b: seq<Group>, id: nat)
    ensures WithoutGroup(a + b, id) == WithoutGroup(a, id) + WithoutGroup(b, id)
  {
    if a == [] {
      assert a + b == b;
    } else {
      assert (a + b)[0] == a[0];
      assert (a + b)[1..] == a[1..] + b;
      WithoutGroupOfConcat(a[1..], b, id);
    }
  }

  /** A single entry is dropped exactly when it is for the group object `id`, and kept otherwise. */
  lemma WithoutGroupOfOne(x: Group, id: nat)
    ensures WithoutGroup([x], id) == if x.id == id then [] else [x]
  {
    assert [x][1..] == [];
  }

  /** remove_group undoes add_group for a group that was not in the list. */
  lemma {:induction false} WithoutAddedGroup(g: seq<Group>, x: Group)
    requires forall i :: 0 <= i < |g| ==> g[i].id != x.id
    ensures WithoutGroup(g + [x], x.id) == g
  {
    if g == [] {
      assert [x][1..] == [];
    } else {
      assert (g + [x])[1..] == g[1..] + [x];
      WithoutAddedGroup(g[1..], x);
    }
  }

  /** Leaving out one element keeps the rest distinct, and none of them shares its identity. */
  lemma WithoutDistinct(s: seq<Strip>, k: nat)
    requires DistinctIds(s) && k < |s|
    ensures DistinctIds(Without(s, k))
    ensures forall a :: 0 <= a < |Without(s, k)| ==> Without(s, k)[a].id != s[k].id
  {
    var r := Without(s, k);
    forall a, b | 0 <= a < b < |r|
      ensures r[a].id != r[b].id
    {
      var a' := if a < k then a else a + 1;
      var b' := if b < k then b else b + 1;
      assert r[a] == s[a'] && r[b] == s[b'];
    }
    forall a | 0 <= a < |r|
      ensures r[a].id != s[k].id
    {
      var a' := if a < k then a else a + 1;
      assert r[a] == s[a'];
    }
  }

  /** Putting in a strip whose identity is new keeps the pack distinct. */
  lemma WithDistinct(t: seq<Strip>, j: nat, c: Strip)
    requires DistinctIds(t) && j <= |t|
    requires forall a :: 0 <= a < |t| ==> t[a].id != c.id
    ensures DistinctIds(With(t, j, c))
  {
    var r := With(t, j, c);
    forall a, b | 0 <= a < b < |r|
      ensures r[a].id != r[b].id
    {
      if a == j {
        assert r[b] == t[b - 1];
      } else if b == j {
        assert r[a] == t[a];
      } else {
        var a' := if a < j then a else a - 1;
        var b' := if b < j then b else b - 1;
        assert r[a] == t[a'] && r[b] == t[b'];
      }
    }
  }

  /** Taking a child out keeps the others distinct, leaves no strip with that identity, and keeps every other strip. */
  lemma RemovedSpec(s: seq<Strip>, id: nat)
    requires DistinctIds(s)
    ensures DistinctIds(Removed(s, id))
    ensures forall a :: 0 <= a < |Removed(s, id)| ==> Removed(s, id)[a].id != id
    ensures IndexOf(s, id) < |s| ==> multiset(Removed(s, id)) + multiset{s[IndexOf(s, id)]} == multiset(s)
    ensures IndexOf(s, id) == |s| ==> Removed(s, id) == s
  {
    var k := IndexOf(s, id);
    if k < |s| {
      WithoutDistinct(s, k);
      MultisetRemoveAt(s, k);
    }
  }

  /** Inserting keeps the strips distinct. */
  lemma PlacedDistinct(s: seq<Strip>, m: Strip, before: Option<nat>)
    requires DistinctIds(s)
    ensures DistinctIds(Placed(s, m, before))
  {
    if !(IndexOf(s, m.id) < |s| && before == Some(m.id)) {
      RemovedSpec(s, m.id);
      var t := Removed(s, m.id);
      WithDistinct(t, PositionOf(t, before), Current(s, m));
    }
  }

  /** A strip put into a pack that holds no strip with its identity is found where it was put. */
  lemma IndexOfWith(t: seq<Strip>, j: nat, c: Strip)
    requires j <= |t|
    requires forall a :: 0 <= a < |t| ==> t[a].id != c.id
    ensures IndexOf(With(t, j, c), c.id) == j
  {
    var r := With(t, j, c);
    forall a | 0 <= a < j
      ensures r[a].id != c.id
    {
      assert r[a] == t[a];
    }
    IndexOfAt(r, c.id, j);
  }

  /** The inserted strip is the first with its identity, at the insert position. */
  lemma PlacedIndex(s: seq<Strip>, m: Strip, before: Option<nat>)
    requires DistinctIds(s)
    requires !(IndexOf(s, m.id) < |s| && before == Some(m.id))
    ensures IndexOf(Placed(s, m, before), m.id) == PositionOf(Removed(s, m.id), before)
  {
    RemovedSpec(s, m.id);
    var t := Removed(s, m.id);
    IndexOfWith(t, PositionOf(t, before), Current(s, m));
  }

  /** Inserting moves one strip and nothing else: the other strips keep their order. */
  lemma PlacedKeepsOthers(s: seq<Strip>, m: Strip, before: Option<nat>)
    requires DistinctIds(s)
    ensures Removed(Placed(s, m, before), m.id) == Removed(s, m.id)
  {
    if !(IndexOf(s, m.id) < |s| && before == Some(m.id)) {
      PlacedIndex(s, m, before);
      var t := Removed(s, m.id);
      var j := PositionOf(t, before);
      var r := With(t, j, Current(s, m));
      assert Without(r, j) == t;
    }
  }

  lemma MultisetInsertAt(t: seq<Strip>, j: nat, c: Strip)
    requires j <= |t|
    ensures multiset(With(t, j, c)) == multiset(t) + multiset{c}
  {
    assert t == t[..j] + t[j..];
  }

  lemma MultisetRemoveAt(s: seq<Strip>, k: nat)
    requires k < |s|
    ensures multiset(s) == multiset(Without(s, k)) + multiset{s[k]}
  {
    assert s == s[..k] + [s[k]] + s[k + 1..];
  }

  /** Inserting a child only reorders the pack; inserting a new strip adds exactly that strip. */
  lemma PlacedPermutes(s: seq<Strip>, m: Strip, before: Option<nat>)
    ensures IndexOf(s, m.id) < |s| ==> multiset(Placed(s, m, before)) == multiset(s)
    ensures IndexOf(s, m.id) == |s| ==> multiset(Placed(s, m, before)) == multiset(s) + multiset{m}
  {
    var k := IndexOf(s, m.id);
    if !(k < |s| && before == Some(m.id)) {
      var t := Removed(s, m.id);
      MultisetInsertAt(t, PositionOf(t, before), Current(s, m));
      if k < |s| {
        MultisetRemoveAt(s, k);
      }
    }
  }

  /** Taking out the strip at `k` moves the strip at `b` one place to the left when it stood right of `k`. */
  lemma WithoutIndexOf(s: seq<Strip>, k: nat, b: nat)
    requires DistinctIds(s) && k < |s| && b < |s| && b != k
    ensures IndexOf(Without(s, k), s[b].id) == if b < k then b else b - 1
  {
    var r := Without(s, k);
    var b' := if b < k then b else b - 1;
    assert r[b'] == s[b];
    forall a | 0 <= a < b'
      ensures r[a].id != s[b].id
    {
      var a' := if a < k then a else a + 1;
      assert r[a] == s[a'];
    }
    IndexOfAt(r, s[b].id, b');
  }

  /** After inserting, the strip stands right in front of `before` when that is another child, else last. */
  lemma PlacedPosition(s: seq<Strip>, m: Strip, before: Option<nat>)
    requires DistinctIds(s)
    requires before != Some(m.id)
    ensures var r := Placed(s, m, before); var k := IndexOf(r, m.id);
      k < |r| && r[k] == Current(s, m) &&
      (if before.Some? && IndexOf(s, before.value) < |s| then k + 1 < |r| && r[k + 1].id == before.value else k == |r| - 1)
  {
    PlacedIndex(s, m, before);
    var t := Removed(s, m.id);
    var j := PositionOf(t, before);
    var r := With(t, j, Current(s, m));
    if before.Some? && IndexOf(s, before.value) < |s| {
      var b := IndexOf(s, before.value);
      var k := IndexOf(s, m.id);
      if k < |s| {
        WithoutIndexOf(s, k, b);
      }
      assert r[j + 1] == t[j];
    } else if before.Some? {
      RemovedSpec(s, m.id);
      assert IndexOf(t, before.value) == |t|;
    }
  }

  /** Taking out the strip at `i` and putting it back one place to the right swaps it with its neighbour. */
  lemma MoveOneRight(s: seq<Strip>, i: nat)
    requires i + 1 < |s|
    ensures With(Without(s, i), i + 1, s[i]) == Swapped(s, i)
  {
    var t := Without(s, i);
    var r := With(t, i + 1, s[i]);
    forall a | 0 <= a < |s|
      ensures r[a] == Swapped(s, i)[a]
    {
      if a < i {
        assert r[a] == t[a] == s[a];
      } else if a == i {
        assert r[a] == t[i] == s[i + 1];
      } else if a > i + 1 {
        assert r[a] == t[a - 1] == s[a];
      }
    }
  }

  /** Taking out the strip at `i` and putting it back one place to the left swaps it with its neighbour. */
  lemma MoveOneLeft(s: seq<Strip>, i: nat)
    requires 0 < i < |s|
    ensures With(Without(s, i), i - 1, s[i]) == Swapped(s, i - 1)
  {
    var t := Without(s, i);
    var r := With(t, i - 1, s[i]);
    forall a | 0 <= a < |s|
      ensures r[a] == Swapped(s, i - 1)[a]
    {
      if a < i - 1 {
        assert r[a] == t[a] == s[a];
      } else if a == i {
        assert r[a] == t[i - 1] == s[i - 1];
      } else if a > i {
        assert r[a] == t[a - 1] == s[a];
      }
    }
  }

  /** move_left: inserting the strip at `i` in front of its left neighbour swaps the two. */
  lemma PlacedSwapsLeft(s: seq<Strip>, i: nat)
    requires DistinctIds(s) && 0 < i < |s|
    ensures Placed(s, s[i], Some(s[i - 1].id)) == Swapped(s, i - 1)
  {
    IndexOfDistinct(s, i);
    var t := Removed(s, s[i].id);
    assert t == Without(s, i);
    WithoutIndexOf(s, i, i - 1);
    MoveOneLeft(s, i);
  }

  /**
   * move_right: inserting the strip at `i` in front of the strip two places
   * to its right (or at the end when there is none) swaps it with its right
   * neighbour.
   */
  lemma PlacedSwapsRight(s: seq<Strip>, i: nat)
    requires DistinctIds(s) && i + 1 < |s|
    ensures Placed(s, s[i], if i + 2 < |s| then Some(s[i + 2].id) else None) == Swapped(s, i)
  {
    IndexOfDistinct(s, i);
    var before := if i + 2 < |s| then Some(s[i + 2].id) else None;
    var t := Removed(s, s[i].id);
    assert t == Without(s, i);
    if i + 2 < |s| {
      WithoutIndexOf(s, i, i + 2);
    }
    assert PositionOf(t, before) == i + 1;
    MoveOneRight(s, i);
  }
}
