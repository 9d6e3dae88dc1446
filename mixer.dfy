/**
 * The Mixer window's bookkeeping: the strip pack (an ordered sequence of
 * strips) and the group list, the row layout of the pack, the lookups and
 * unique names built on them, the OSC strip-number rewrite and the
 * auto-connect rules.
 */
module MixerWindow {
  import opened Options
  import opened Strips
  import opened UniqueNames
  import opened Layout
  import opened OscPath
  import opened AutoConnect

  class Mixer {
    /** The children of the strip pack (mixer_strips), in order. */
    var strips: seq<Strip>
    /** The group list (groups). */
    var groups: seq<Group>
    /** _rows: the number of rows last asked for. */
    var rowsSetting: int
    /** _strip_height: the strip height rows() last computed. */
    var stripHeight: int
    /** Whether the strip pack flows its strips into several rows. */
    var flow: bool
    /** The size of the strip pack. */
    var packW: int
    var packH: int
    /** The size of the scroll area around the pack. */
    var scrollW: int
    var scrollH: int
    /** Mixer_Strip::min_h(), the least height of a strip. */
    const minStripHeight: int

    ghost predicate Valid()
      reads this
    {
      DistinctIds(strips) && minStripHeight > 0
    }

    /** The layout state, which the strip and group operations leave alone. */
    ghost function Settings(): (int, int, bool, int, int, int, int)
      reads this
    {
      (rowsSetting, stripHeight, flow, packW, packH, scrollW, scrollH)
    }

    /**
     * The state rows(ideal) leaves behind when the pack held `before` and
     * was `packHBefore` pixels high: the ideal count recorded, the strip
     * height and flow derived from the rows that fit, every strip at that
     * height, and the pack as wide as the scroll area (several rows) or as
     * the strips side by side (one row).
     */
    ghost predicate LaidOut(ideal: int, before: seq<Strip>, packHBefore: int)
      reads this
      requires minStripHeight > 0
    {
      var r := ActualRows(ideal, scrollH, minStripHeight);
      && rowsSetting == ideal
      && stripHeight == StripHeight(ideal, scrollH, minStripHeight)
      && flow == (r > 1)
      && strips == WithHeight(before, stripHeight)
      && (r > 1 ==> packW == scrollW - ScrollbarSize && packH == packHBefore)
      && (r == 1 ==> packW == TotalWidth(before) && packH == stripHeight)
    }

    /**
     * A mixer W by H pixels: no strips, no groups, one row; the closing
     * resize() lays out the empty pack.
     */
    constructor (minH: int, W: int, H: int)
      requires minH > 0
      ensures Valid()
      ensures minStripHeight == minH
      ensures strips == [] && groups == []
      ensures scrollW == W && scrollH == H - 42
      ensures rowsSetting == 1 && !flow
      ensures stripHeight == scrollH - ScrollbarSize
      ensures packW == 0 && packH == stripHeight
    {
      minStripHeight := minH;
      strips := [];
      groups := [];
      rowsSetting := 1;
      stripHeight := 0;
      flow := false;
      scrollW, scrollH := W, H - 100;
      packW, packH := W, H - 60;
      new;
      Resize(W, H);
    }

    /** resize(): the scroll area and the pack take the new size, then rows(_rows) lays the strips out again. */
    method Resize(W: int, H: int)
      requires Valid()
      modifies this
      ensures Valid()
      ensures scrollW == W && scrollH == H - 42
      ensures LaidOut(old(rowsSetting), old(strips), H - 60)
      ensures groups == old(groups)
    {
      scrollW, scrollH := W, H - 24 - ScrollbarSize;
      packW, packH := W, H - ScrollbarSize * 2 - 24;
      Rows(rowsSetting);
    }

    /**
     * rows(ideal): as many rows as fit, at most `ideal`; every strip set to
     * the strip height that gives; the pack sized for that many rows.
     */
    method Rows(ideal: int)
      requires Valid()
      modifies this
      ensures Valid()
      ensures LaidOut(ideal, old(strips), old(packH))
      ensures groups == old(groups) && scrollW == old(scrollW) && scrollH == old(scrollH)
    {
      var actual, sh, flows := RowsThatFit(ideal, scrollH, minStripHeight);
      flow := flows;

      var s, tw := SetHeights(strips, sh);
      strips := s;

      if actual > 1 {
        packW := scrollW - ScrollbarSize;
      } else {
        packW, packH := tw, sh;
      }
      rowsSetting := ideal;
      stripHeight := sh;
    }

    /**
     * The first half of rows(): the rows that fit in a scroll area `scrollH`
     * high, at most `ideal`, the strip height for them, and whether the
     * pack flows (the argument rows() passes to Fl_Flowpack::flow).
     */
    static method RowsThatFit(ideal: int, scrollH: int, minH: int) returns (actual: int, sh: int, flows: bool)
      requires minH > 0
      ensures actual == ActualRows(ideal, scrollH, minH)
      ensures sh == StripHeight(ideal, scrollH, minH)
      ensures flows == (actual > 1)
    {
      var canFit := CDiv(scrollH, minH);
      actual := if canFit > 0 then canFit else 1;
      if actual > ideal {
        actual := ideal;
      }
      sh := 0;
      if actual > 1 {
        sh := CDiv(scrollH - PackSpacing * (actual - 2) * actual, actual);
        flows := true;
      } else {
        actual := 1;
      }
      if actual == 1 {
        sh := scrollH - ScrollbarSize;
        flows := false;
      }
    }

    /**
     * The loop of rows(): every strip takes height `sh`, and `tw` adds up the
     * strips' widths plus the pack spacing.
     */
    static method SetHeights(strips: seq<Strip>, sh: int) returns (s: seq<Strip>, tw: int)
      ensures s == WithHeight(strips, sh)
      ensures tw == TotalWidth(strips)
    {
      s := strips;
      tw := 0;
      var i := 0;
      while i < |s|
        invariant 0 <= i <= |s| == |strips|
        invariant s[..i] == WithHeight(strips[..i], sh)
        invariant s[i..] == strips[i..]
        invariant tw == TotalWidth(strips[..i])
      {
        assert strips[..i + 1][..i] == strips[..i];
        tw := tw + s[i].w + PackSpacing;
        s := s[i := s[i].(h := sh)];
        i := i + 1;
      }
      assert strips[..i] == strips;
    }

    /** Laying the strips out again for the same rows setting changes nothing. */
    lemma LaidOutAgain(ideal: int, before: seq<Strip>, packHBefore: int)
      requires minStripHeight > 0
      requires LaidOut(ideal, before, packHBefore)
      ensures LaidOut(ideal, strips, packH)
    {
      TotalWidthWithHeight(before, stripHeight);
      assert WithHeight(strips, stripHeight) == strips;
    }

    /**
     * add(ms): the strip goes to the end of the pack (leaving its old place
     * if it was already there) and takes the current strip height.
     */
    method Add(ms: Strip)
      requires Valid()
      modifies this
      ensures Valid()
      ensures strips == Removed(old(strips), ms.id) + [Current(old(strips), ms).(h := stripHeight)]
      ensures groups == old(groups) && Settings() == old(Settings())
    {
      PlacedDistinct(strips, ms, None);
      strips := Placed(strips, ms, None);
      var last := |strips| - 1;
      strips := strips[last := strips[last].(h := stripHeight)];
    }

    /** insert(ms, before): Fl_Group::insert, `before` given by its identity (None for no strip). */
    method Insert(ms: Strip, before: Option<nat>)
      requires Valid()
      modifies this
      ensures Valid()
      ensures strips == Placed(old(strips), ms, before)
      ensures groups == old(groups) && Settings() == old(Settings())
    {
      PlacedDistinct(strips, ms, before);
      strips := Placed(strips, ms, before);
    }

    /** insert(ms, i): insert in front of the child at index i, or at the end when there is none. */
    method InsertAt(ms: Strip, i: int)
      requires Valid()
      modifies this
      ensures Valid()
      ensures strips == Placed(old(strips), ms, if 0 <= i < |old(strips)| then Some(old(strips)[i].id) else None)
      ensures groups == old(groups) && Settings() == old(Settings())
    {
      var before := if 0 <= i < |strips| then Some(strips[i].id) else None;
      Insert(ms, before);
    }

    /**
     * move_left(ms): a strip that has a left neighbour changes places with
     * it; the first strip stays; a strip that is not in the pack is put in
     * front of the last one.
     */
    method MoveLeft(ms: Strip)
      requires Valid()
      modifies this
      ensures Valid()
      ensures IndexOf(old(strips), ms.id) == 0 ==> strips == old(strips)
      ensures 0 < IndexOf(old(strips), ms.id) < |old(strips)| ==>
        strips == Swapped(old(strips), IndexOf(old(strips), ms.id) - 1)
      ensures 0 < |old(strips)| == IndexOf(old(strips), ms.id) ==>
        strips == Placed(old(strips), ms, Some(old(strips)[|old(strips)| - 1].id))
      ensures IndexOf(old(strips), ms.id) < |old(strips)| ==> multiset(strips) == multiset(old(strips))
      ensures groups == old(groups) && Settings() == old(Settings())
    {
      var i := IndexOf(strips, ms.id);
      if i > 0 {
        if i < |strips| {
          assert Placed(strips, ms, Some(strips[i - 1].id)) == Placed(strips, strips[i], Some(strips[i - 1].id));
          PlacedSwapsLeft(strips, i);
        }
        PlacedPermutes(strips, ms, Some(strips[i - 1].id));
        InsertAt(ms, i - 1);
      }
    }

    /**
     * move_right(ms): a strip that has a right neighbour changes places with
     * it; the last strip, and a strip that is not in the pack, stay put.
     */
    method MoveRight(ms: Strip)
      requires Valid()
      modifies this
      ensures Valid()
      ensures IndexOf(old(strips), ms.id) + 1 < |old(strips)| ==>
        strips == Swapped(old(strips), IndexOf(old(strips), ms.id))
      ensures IndexOf(old(strips), ms.id) + 1 >= |old(strips)| ==> strips == old(strips)
      ensures groups == old(groups) && Settings() == old(Settings())
    {
      var i := IndexOf(strips, ms.id);
      if i < |strips| - 1 {
        assert Placed(strips, ms, if i + 2 < |strips| then Some(strips[i + 2].id) else None)
          == Placed(strips, strips[i], if i + 2 < |strips| then Some(strips[i + 2].id) else None);
        PlacedSwapsRight(strips, i);
        InsertAt(ms, i + 2);
      }
    }

    /** remove(ms): the strip leaves the pack; nothing happens when it is not there. */
    method Remove(ms: Strip)
      requires Valid()
      modifies this
      ensures Valid()
      ensures strips == Removed(old(strips), ms.id)
      ensures groups == old(groups) && Settings() == old(Settings())
    {
      RemovedSpec(strips, ms.id);
      strips := Removed(strips, ms.id);
    }

    /** nstrips(): the number of strips in the pack. */
    function NStrips(): (n: nat)
      reads this
      ensures n == |strips|
    {
      |strips|
    }

    /** track_by_number(n): the n-th strip, or none when n is out of range. */
    function TrackByNumber(n: int): (r: Option<Strip>)
      reads this
      ensures r.None? <==> n < 0 || n >= NStrips()
      ensures r.Some? ==> r.value in strips && r.value == strips[n]
    {
      if n < 0 || n >= |strips| then None else Some(strips[n])
    }

    /** track_by_name(name): the last strip with that name, or none when no strip has it. */
    method TrackByName(name: string) returns (r: Option<Strip>)
      ensures r.None? <==> forall k :: 0 <= k < |strips| ==> strips[k].name != name
      ensures r.Some? ==> exists k :: 0 <= k < |strips| && strips[k] == r.value && LastNamed(k, name)
    {
      var i := |strips|;
      while i > 0
        invariant 0 <= i <= |strips|
        invariant forall j :: i <= j < |strips| ==> strips[j].name != name
      {
        i := i - 1;
        if strips[i].name == name {
          assert LastNamed(i, name);
          return Some(strips[i]);
        }
      }
      return None;
    }

    /** The strip at `k` has the name, and no strip after it does. */
    ghost predicate LastNamed(k: int, name: string)
      reads this
    {
      0 <= k < |strips| && strips[k].name == name &&
      forall j :: k < j < |strips| ==> strips[j].name != name
    }

    /** group_by_name(name): the first group in the list with that name, or none. */
    method GroupByName(name: string) returns (r: Option<Group>)
      ensures r.None? <==> forall k :: 0 <= k < |groups| ==> groups[k].name != name
      ensures r.Some? ==> exists k :: 0 <= k < |groups| && groups[k] == r.value && FirstNamed(k, name)
    {
      var i := 0;
      while i < |groups|
        invariant 0 <= i <= |groups|
        invariant forall j :: 0 <= j < i ==> groups[j].name != name
      {
        if groups[i].name == name {
          assert FirstNamed(i, name);
          return Some(groups[i]);
        }
        i := i + 1;
      }
      return None;
    }

    /** The group at `k` has the name, and no group before it does. */
    ghost predicate FirstNamed(k: int, name: string)
      reads this
    {
      0 <= k < |groups| && groups[k].name == name &&
      forall j :: 0 <= j < k ==> groups[j].name != name
    }

    /** add_group(g): the group is appended to the list. */
    method AddGroup(g: Group)
      requires Valid()
      modifies this
      ensures Valid()
      ensures groups == old(groups) + [g]
      ensures strips == old(strips) && Settings() == old(Settings())
    {
      groups := groups + [g];
    }

    /** remove_group(g): every entry for the group object leaves the list; the others keep their order. */
    method RemoveGroup(g: Group)
      requires Valid()
      modifies this
      ensures Valid()
      ensures groups == WithoutGroup(old(groups), g.id)
      ensures strips == old(strips) && Settings() == old(Settings())
    {
      groups := WithoutGroup(groups, g.id);
    }

    /**
     * get_unique_track_name(name): `name` when no strip has it, otherwise
     * `name.i` for the least i >= 1 no strip has.
     */
    method UniqueTrackName(name: string) returns (r: string)
      ensures IsFirstFreeName(Names(strips, (st: Strip) => st.name), name, r)
    {
      ghost var taken := Names(strips, (st: Strip) => st.name);
      r := name;
      var i := 1;
      var found := TrackByName(r);
      while found.Some?
        invariant 1 <= i
        invariant found.None? <==> r !in taken
        invariant i == 1 ==> r == name
        invariant i > 1 ==> name in taken && r == Suffixed(name, i - 1)
        invariant forall j: nat :: 1 <= j < i - 1 ==> Suffixed(name, j) in taken
        decreases |taken| + 1 - i
      {
        if i > 1 {
          FewSuffixesTaken(name, taken, i - 1);
        }
        r := Suffixed(name, i);
        i := i + 1;
        found := TrackByName(r);
      }
      if name in taken {
        assert 1 <= i - 1 && r == Suffixed(name, i - 1);
      }
    }

    /**
     * get_unique_group_name(name): `name` when no group has it, otherwise
     * `name.i` for the least i >= 1 no group has.
     */
    method UniqueGroupName(name: string) returns (r: string)
      ensures IsFirstFreeName(Names(groups, (g: Group) => g.name), name, r)
    {
      ghost var taken := Names(groups, (g: Group) => g.name);
      r := name;
      var i := 1;
      var found := GroupByName(r);
      while found.Some?
        invariant 1 <= i
        invariant found.None? <==> r !in taken
        invariant i == 1 ==> r == name
        invariant i > 1 ==> name in taken && r == Suffixed(name, i - 1)
        invariant forall j: nat :: 1 <= j < i - 1 ==> Suffixed(name, j) in taken
        decreases |taken| + 1 - i
      {
        if i > 1 {
          FewSuffixesTaken(name, taken, i - 1);
        }
        r := Suffixed(name, i);
        i := i + 1;
        found := GroupByName(r);
      }
      if name in taken {
        assert 1 <= i - 1 && r == Suffixed(name, i - 1);
      }
    }

    /**
     * osc_strip_by_number(path): a message for `client/strip#/N/rest` goes
     * to `client/strip/NAME/rest`, NAME the name of strip N; a path of
     * another shape is not this handler's, and a missing strip drops the
     * message. The forwarded path never has the strip-number shape itself.
     */
    function OscStripByNumber(path: string): (r: OscOutcome)
      reads this
      ensures r.Unmatched? <==> Parse(path).None?
      ensures ReturnCode(r) == -1 <==> Parse(path).None?
      ensures Parse(path).Some? ==> (r.NoSuchStrip? <==> TrackByNumber(Parse(path).value.number).None?)
      ensures r.Forwarded? ==> 0 <= Parse(path).value.number < |strips|
      ensures r.Forwarded? ==> r.path == NamedPath(Parse(path).value.client, strips[Parse(path).value.number].name, Parse(path).value.rest)
      ensures r.Forwarded? ==> Parse(r.path).None?
    {
      match Parse(path)
      case None => Unmatched
      case Some(a) =>
        match TrackByNumber(a.number)
        case None => NoSuchStrip
        case Some(st) =>
          ParseRejectsNamedPath(a.client, st.name, a.rest);
          Forwarded(NamedPath(a.client, st.name, a.rest))
    }

    /** A message for strip number n is forwarded to that strip's named path, or dropped when there is no strip n. */
    lemma OscStripByNumberRewrites(client: string, n: int, rest: string, tail: string)
      requires ValidClient(client) && ValidRest(rest)
      requires tail == [] || tail[0] == '\n'
      ensures OscStripByNumber(NumberedPath(StripAddress(client, n, rest)) + tail) ==
        if 0 <= n < |strips| then Forwarded(NamedPath(client, strips[n].name, rest)) else NoSuchStrip
    {
      ParseNumberedPath(StripAddress(client, n, rest), tail);
    }

    /**
     * get_auto_connect_targets(): the target of every output port of every
     * strip, the strips taken from last to first, each target once, in the
     * order it first comes up.
     */
    method AutoConnectTargets() returns (rl: seq<string>)
      requires PortsHaveSlash(strips)
      ensures rl == Dedup(Targets(CollectPorts(strips)))
      ensures forall i, p :: 0 <= i < |strips| && p in strips[i].outputs ==> Target(p) in rl
      ensures forall j, k :: 0 <= j < k < |rl| ==> rl[j] != rl[k]
    {
      var sl: seq<string> := [];
      var i := |strips|;
      while i > 0
        invariant 0 <= i <= |strips|
        invariant sl == CollectPorts(strips[i..])
      {
        i := i - 1;
        CollectPortsStep(strips, i);
        sl := sl + strips[i].outputs;
      }
      assert strips[0..] == strips;
      CollectPortsMembers(strips);
      ghost var targets := Targets(sl);

      rl := [];
      var k := 0;
      while k < |sl|
        invariant 0 <= k <= |sl|
        invariant rl == Dedup(targets[..k])
      {
        var s := Target(sl[k]);
        DedupStep(targets, k);
        if s !in rl {
          rl := rl + [s];
        }
        k := k + 1;
      }
      assert targets[..k] == targets;

      forall i, p | 0 <= i < |strips| && p in strips[i].outputs
        ensures Target(p) in rl
      {
        assert p in sl;
        var x :| 0 <= x < |sl| && sl[x] == p;
        assert targets[x] == Target(p);
      }
    }

    /**
     * auto_connect(): nothing while a project is opening; otherwise every
     * strip is asked to connect its outputs, those with group affinity
     * first. `asked` lists the strips asked, by index, in order.
     */
    method AutoConnect(opening: bool) returns (asked: seq<nat>)
      ensures opening ==> asked == []
      ensures !opening ==> asked == DispatchOrder(strips)
    {
      asked := [];
      if opening {
        return;
      }
      var i := 0;
      while i < |strips|
        invariant 0 <= i <= |strips|
        invariant asked == IndicesWith(strips[..i], true)
      {
        assert strips[..i + 1][..i] == strips[..i];
        if strips[i].groupAffinity {
          asked := asked + [i];
        }
        i := i + 1;
      }
      assert strips[..i] == strips;
      i := 0;
      while i < |strips|
        invariant 0 <= i <= |strips|
        invariant asked == IndicesWith(strips, true) + IndicesWith(strips[..i], false)
      {
        assert strips[..i + 1][..i] == strips[..i];
        if !strips[i].groupAffinity {
          asked := asked + [i];
        }
        i := i + 1;
      }
      assert strips[..i] == strips;
    }

    /**
     * maybe_auto_connect_output(p): nothing while a project is opening;
     * otherwise the strips are asked in auto_connect's order until one
     * accepts the port, and no strip after it is asked. `accepts` stands
     * for Mixer_Strip::maybe_auto_connect_output(p).
     */
    method MaybeAutoConnectOutput(opening: bool, accepts: Strip -> bool) returns (asked: seq<nat>, winner: Option<nat>)
      ensures opening ==> asked == [] && winner == None
      ensures asked <= DispatchOrder(strips)
      ensures forall x :: 0 <= x < |asked| - 1 ==> !accepts(strips[asked[x]])
      ensures winner.Some? <==> asked != [] && accepts(strips[asked[|asked| - 1]])
      ensures winner.Some? ==> winner.value == asked[|asked| - 1]
      ensures !opening && winner.None? ==> asked == DispatchOrder(strips)
    {
      asked, winner := [], None;
      if opening {
        return;
      }
      asked, winner := AskUntilAccepted(true, accepts);
      if winner.Some? {
        return;
      }
      var more;
      more, winner := AskUntilAccepted(false, accepts);
      asked := asked + more;
    }

    /** Every strip in `asked` declined the port. */
    static ghost predicate Declined(s: seq<Strip>, asked: seq<nat>, accepts: Strip -> bool) {
      forall x :: 0 <= x < |asked| ==> asked[x] < |s| && !accepts(s[asked[x]])
    }

    static lemma DeclinedThenAccepted(s: seq<Strip>, asked: seq<nat>, i: nat, accepts: Strip -> bool)
      requires Declined(s, asked, accepts) && i < |s| && accepts(s[i])
      ensures var r := asked + [i]; forall x :: 0 <= x < |r| - 1 ==> !accepts(s[r[x]])
      ensures forall x :: 0 <= x < |asked + [i]| ==> (asked + [i])[x] < |s|
    {
    }

    /**
     * One loop of maybe_auto_connect_output: the strips whose group affinity
     * is `affinity` are asked in index order until one accepts.
     */
    method AskUntilAccepted(affinity: bool, accepts: Strip -> bool) returns (asked: seq<nat>, winner: Option<nat>)
      ensures asked <= IndicesWith(strips, affinity)
      ensures forall x :: 0 <= x < |asked| ==> asked[x] < |strips|
      ensures forall x :: 0 <= x < |asked| - 1 ==> !accepts(strips[asked[x]])
      ensures winner.Some? <==> asked != [] && accepts(strips[asked[|asked| - 1]])
      ensures winner.Some? ==> winner.value == asked[|asked| - 1]
      ensures winner.None? ==> asked == IndicesWith(strips, affinity)
    {
      asked, winner := [], None;
      var s := strips;
      var i := 0;
      while i < |s|
        invariant 0 <= i <= |s|
        invariant asked == IndicesWith(s[..i], affinity)
        invariant Declined(s, asked, accepts)
      {
        IndicesWithStep(s, i, affinity);
        if s[i].groupAffinity == affinity {
          if accepts(s[i]) {
            IndicesWithPrefix(s, i + 1, affinity);
            DeclinedThenAccepted(s, asked, i, accepts);
            asked, winner := asked + [i], Some(i);
            return;
          }
          asked := asked + [i];
        }
        i := i + 1;
      }
      assert s[..i] == s;
    }
  }
}
