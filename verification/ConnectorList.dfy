/** The connector list of a device, and the move of its panels to the front. */
module ConnectorList {
  import opened KmsObjects
  import opened LinuxList

  const CONNECTOR_LVDS := 7
  const CONNECTOR_EDP := 14

  /** A connector, as far as the list goes. */
  class ListedConnector {
    const head: ListHead<ListedConnector>
    const connectorType: nat

    constructor (connectorType: nat)
      ensures this.connectorType == connectorType
      ensures fresh(head) && Ring([head]) && head.entry == None
    {
      this.connectorType := connectorType;
      head := new ListHead();
    }
  }

  predicate IsPanel(c: ListedConnector) {
    c.connectorType == CONNECTOR_LVDS || c.connectorType == CONNECTOR_EDP
  }

  function Panels(cs: seq<ListedConnector>): seq<ListedConnector> {
    if cs == [] then [] else
    Panels(cs[..|cs| - 1]) + if IsPanel(cs[|cs| - 1]) then [cs[|cs| - 1]] else []
  }

  function Others(cs: seq<ListedConnector>): seq<ListedConnector> {
    if cs == [] then [] else
    Others(cs[..|cs| - 1]) + if IsPanel(cs[|cs| - 1]) then [] else [cs[|cs| - 1]]
  }

  /** No panel comes after a connector of another type. */
  predicate PanelsFirst(cs: seq<ListedConnector>) {
    forall i, j :: 0 <= i < j < |cs| && IsPanel(cs[j]) ==> IsPanel(cs[i])
  }

  lemma {:induction false} PartsOfConcat(a: seq<ListedConnector>, b: seq<ListedConnector>)
    ensures Panels(a + b) == Panels(a) + Panels(b)
    ensures Others(a + b) == Others(a) + Others(b)
  {
    if b == [] {
      assert a + b == a;
    } else {
      var n := |b| - 1;
      PartsOfConcat(a, b[..n]);
      assert (a + b)[..|a + b| - 1] == a + b[..n];
    }
  }

  lemma {:induction false} PartsOfUniform(cs: seq<ListedConnector>, panel: bool)
    requires forall c :: c in cs ==> IsPanel(c) == panel
    ensures Panels(cs) == if panel then cs else []
    ensures Others(cs) == if panel then [] else cs
  {
    if cs != [] {
      var front, last := cs[..|cs| - 1], cs[|cs| - 1];
      assert forall c :: c in front ==> c in cs;
      assert last in cs && cs == front + [last];
      PartsOfUniform(front, panel);
    }
  }

  lemma {:induction false} PartMembers(cs: seq<ListedConnector>)
    ensures forall c :: c in Panels(cs) ==> c in cs && IsPanel(c)
    ensures forall c :: c in Others(cs) ==> c in cs && !IsPanel(c)
  {
    if cs != [] {
      PartMembers(cs[..|cs| - 1]);
    }
  }

  lemma {:induction false} NothingLost(cs: seq<ListedConnector>)
    ensures multiset(Panels(cs) + Others(cs)) == multiset(cs)
  {
    hide Panels, Others;
    if cs == [] {
      NoParts();
    } else {
      var front, last := cs[..|cs| - 1], cs[|cs| - 1];
      NothingLost(front);
      var p, o := if IsPanel(last) then [last] else [], if IsPanel(last) then [] else [last];
      PartsOfLast(cs);
      TogetherInParts(Panels(front), p, Others(front), o);
      assert p + o == [last];
      assert cs == front + [last];
    }
  }

  lemma NoParts()
    ensures Panels([]) == [] && Others([]) == []
  {
  }

  lemma PartsOfLast(cs: seq<ListedConnector>)
    requires cs != []
    ensures Panels(cs) == Panels(cs[..|cs| - 1]) + if IsPanel(cs[|cs| - 1]) then [cs[|cs| - 1]] else []
    ensures Others(cs) == Others(cs[..|cs| - 1]) + if IsPanel(cs[|cs| - 1]) then [] else [cs[|cs| - 1]]
  {
    hide IsPanel;
  }

  lemma TogetherInParts<T>(a: seq<T>, p: seq<T>, b: seq<T>, o: seq<T>)
    ensures multiset((a + p) + (b + o)) == multiset(a + b) + multiset(p + o)
  {
  }

  lemma {:induction false} FrontSplits(cs: seq<ListedConnector>)
    requires PanelsFirst(cs)
    ensures cs == Panels(cs) + Others(cs)
  {
    if cs != [] {
      var last := |cs| - 1;
      if IsPanel(cs[last]) {
        PartsOfUniform(cs, true);
      } else {
        FrontSplits(cs[..last]);
        assert cs == cs[..last] + [cs[last]];
      }
    }
  }

  lemma FrontOfTwo(a: seq<ListedConnector>, b: seq<ListedConnector>)
    requires forall c :: c in a ==> IsPanel(c)
    requires forall c :: c in b ==> !IsPanel(c)
    ensures PanelsFirst(a + b)
  {
    hide IsPanel;
    assert forall i :: 0 <= i < |a| ==> a[i] in a;
    assert forall i :: 0 <= i < |b| ==> b[i] in b;
  }

  lemma PartitionIsStable(cs: seq<ListedConnector>)
    ensures PanelsFirst(Panels(cs) + Others(cs))
    ensures Panels(Panels(cs) + Others(cs)) == Panels(cs) && Others(Panels(cs) + Others(cs)) == Others(cs)
  {
    hide Panels, Others, PanelsFirst, IsPanel;
    var a, b := Panels(cs), Others(cs);
    PartMembers(cs);
    FrontOfTwo(a, b);
    PartsOfConcat(a, b);
    PartsOfUniform(a, true);
    PartsOfUniform(b, false);
  }

  /** Panels(cs) + Others(cs) is the stable partition of cs, and the only one: panels first, and both kinds in
      the order they had. */
  lemma StablePartition(cs: seq<ListedConnector>, rs: seq<ListedConnector>)
    ensures rs == Panels(cs) + Others(cs) <==>
            (PanelsFirst(rs) && Panels(rs) == Panels(cs) && Others(rs) == Others(cs))
    ensures rs == Panels(cs) + Others(cs) ==> multiset(rs) == multiset(cs)
  {
    NothingLost(cs);
    PartitionIsStable(cs);
    if PanelsFirst(rs) {
      FrontSplits(rs);
    }
    hide *;
  }

  /** Panels are the connectors of type 7 (LVDS) and 14 (eDP). */
  lemma PanelTypes(c: ListedConnector)
    ensures IsPanel(c) <==> c.connectorType in {7, 14}
  {
  }

  /** VGA, LVDS, HDMI, eDP, DisplayPort end up as LVDS, eDP, VGA, HDMI, DisplayPort. */
  lemma FiveInOrder(vga: ListedConnector, lvds: ListedConnector, hdmi: ListedConnector, edp: ListedConnector,
                    dp: ListedConnector)
    requires vga.connectorType == 1 && lvds.connectorType == 7 && hdmi.connectorType == 11
    requires edp.connectorType == 14 && dp.connectorType == 10
    ensures var cs := [vga, lvds, hdmi, edp, dp]; Panels(cs) + Others(cs) == [lvds, edp, vga, hdmi, dp]
  {
    PanelTypes(vga);
    PanelTypes(lvds);
    PanelTypes(hdmi);
    PanelTypes(edp);
    PanelTypes(dp);
    hide *;
    var cs := [vga, lvds, hdmi, edp, dp];
    PartsOfConcat([vga], [lvds]);
    PartsOfConcat([vga, lvds], [hdmi]);
    PartsOfConcat([vga, lvds, hdmi], [edp]);
    PartsOfConcat([vga, lvds, hdmi, edp], [dp]);
    PartsOfUniform([vga], false);
    PartsOfUniform([lvds], true);
    PartsOfUniform([hdmi], false);
    PartsOfUniform([edp], true);
    PartsOfUniform([dp], false);
    assert [vga] + [lvds] == [vga, lvds] && [vga, lvds] + [hdmi] == [vga, lvds, hdmi];
    assert [vga, lvds, hdmi] + [edp] == [vga, lvds, hdmi, edp] && [vga, lvds, hdmi, edp] + [dp] == cs;
  }

  function Heads(cs: seq<ListedConnector>): (r: seq<ListHead<ListedConnector>>)
    ensures |r| == |cs| && forall i :: 0 <= i < |cs| ==> r[i] == cs[i].head
  {
    seq(|cs|, i requires 0 <= i < |cs| => cs[i].head)
  }

  /** The heads of the ring that starts at `list`. */
  function RingOf(list: ListHead<ListedConnector>, cs: seq<ListedConnector>): (r: seq<ListHead<ListedConnector>>)
    ensures |r| == |cs| + 1 && r[0] == list && forall i :: 0 < i < |r| ==> r[i] == cs[i - 1].head
  {
    [list] + Heads(cs)
  }

  /** The ring that starts at `list` holds exactly the connectors cs in this order; `list` itself holds nothing. */
  ghost predicate Holds(list: ListHead<ListedConnector>, cs: seq<ListedConnector>)
    reads list, Heads(cs)
  {
    Ring(RingOf(list, cs)) && list.entry == None &&
    forall i :: 0 <= i < |cs| ==> cs[i].head.entry == Some(cs[i])
  }

  /** What the list still holds after the first k connectors were looked at. */
  function Left(cs: seq<ListedConnector>, k: int): seq<ListedConnector>
    requires 0 <= k <= |cs|
  {
    Others(cs[..k]) + cs[k..]
  }

  lemma LeftStep(cs: seq<ListedConnector>, k: int)
    requires 0 <= k < |cs|
    ensures |Left(cs, k)| > |Others(cs[..k])| && Left(cs, k)[|Others(cs[..k])|] == cs[k]
    ensures k + 1 < |cs| ==> |Left(cs, k)| > |Others(cs[..k])| + 1 && Left(cs, k)[|Others(cs[..k])| + 1] == cs[k + 1]
    ensures k + 1 == |cs| ==> |Left(cs, k)| == |Others(cs[..k])| + 1
    ensures !IsPanel(cs[k]) ==> Left(cs, k + 1) == Left(cs, k) && Panels(cs[..k + 1]) == Panels(cs[..k])
    ensures IsPanel(cs[k]) ==> Left(cs, k + 1) == Without(Left(cs, k), |Others(cs[..k])|)
    ensures IsPanel(cs[k]) ==> Panels(cs[..k + 1]) == Panels(cs[..k]) + [cs[k]]
  {
    assert cs[..k + 1][..k] == cs[..k];
    assert cs[k..] == [cs[k]] + cs[k + 1..];
  }

  lemma LeftEnd(cs: seq<ListedConnector>)
    ensures cs[..|cs|] == cs && Left(cs, |cs|) == Others(cs)
  {
  }

  lemma HeadsApart(list: ListHead<ListedConnector>, cs: seq<ListedConnector>, i: int, j: int)
    requires Distinct(RingOf(list, cs)) && 0 <= i < |cs| && 0 <= j < |cs|
    ensures cs[i].head != list
    ensures i != j ==> cs[i].head != cs[j].head
  {
    var r := RingOf(list, cs);
    assert r[i + 1] == cs[i].head && r[j + 1] == cs[j].head && r[0] == list;
  }

  lemma LeftMembers(cs: seq<ListedConnector>, k: int)
    requires 0 <= k <= |cs|
    ensures forall c :: c in Left(cs, k) ==> c in cs
    ensures forall c :: c in Panels(cs[..k]) ==> c in cs
  {
    PartMembers(cs[..k]);
  }

  /** The step of the loop: the k-th connector leaves the list for the panels' one if it is a panel. */
  method MoveOne(list: ListHead<ListedConnector>, panelList: ListHead<ListedConnector>, pos: ListedConnector,
                 ghost left: seq<ListedConnector>, ghost panels: seq<ListedConnector>, ghost k: int)
    requires Ring(RingOf(list, left)) && Ring(RingOf(panelList, panels))
    requires forall h :: h in RingOf(list, left) ==> h !in RingOf(panelList, panels)
    requires 0 <= k < |left| && left[k] == pos
    requires pos.head.entry == Some(pos)
    modifies list, Heads(left), panelList, Heads(panels)
    ensures IsPanel(pos) ==> Ring(RingOf(list, Without(left, k))) && Ring(RingOf(panelList, panels + [pos]))
    ensures !IsPanel(pos) ==> Ring(RingOf(list, left)) && Ring(RingOf(panelList, panels))
    ensures forall h :: h in RingOf(list, left) + RingOf(panelList, panels) ==> h.entry == old(h.entry)
  {
    if IsPanel(pos) {
      ghost var r := RingOf(list, left);
      ghost var s := RingOf(panelList, panels);
      assert pos.head == Heads(left)[k] == r[k + 1];
      assert Without(r, k + 1) == RingOf(list, Without(left, k));
      assert s + [pos.head] == RingOf(panelList, panels + [pos]);
      MoveTail(pos.head, panelList, pos, r, k + 1, s);
    }
  }

  lemma NextEntry(list: ListHead<ListedConnector>, cs: seq<ListedConnector>, i: int)
    requires Ring(RingOf(list, cs)) && -1 <= i < |cs|
    ensures (if i < 0 then list else cs[i].head).next == if i + 1 < |cs| then cs[i + 1].head else list
  {
    var r := RingOf(list, cs);
    assert LinkedAt(r, i + 1);
    assert r[i + 1] == if i < 0 then list else cs[i].head;
  }

  lemma LeftFrom(cs: seq<ListedConnector>, k: int, i: int) returns (m: nat)
    requires 0 <= k <= |cs| && 0 <= i < |Left(cs, k)|
    ensures m < |cs| && cs[m] == Left(cs, k)[i] && (m < k ==> !IsPanel(cs[m]))
  {
    var front := |Others(cs[..k])|;
    if i < front {
      PartMembers(cs[..k]);
      assert Left(cs, k)[i] in Others(cs[..k]);
      m :| m < k && cs[m] == Left(cs, k)[i];
    } else {
      m := i - front + k;
    }
  }

  /** The two rings never share a head. */
  lemma RingsApart(list: ListHead<ListedConnector>, panelList: ListHead<ListedConnector>, cs: seq<ListedConnector>,
                   k: int)
    requires Distinct(RingOf(list, cs)) && panelList !in RingOf(list, cs) && 0 <= k <= |cs|
    ensures forall h :: h in RingOf(list, Left(cs, k)) ==> h !in RingOf(panelList, Panels(cs[..k]))
  {
    PartMembers(cs[..k]);
    var left, panels := Left(cs, k), Panels(cs[..k]);
    assert forall i :: 0 <= i <= |cs| ==> RingOf(list, cs)[i] != panelList;
    forall i | 0 <= i < |left|
      ensures left[i].head != panelList
      ensures forall j :: 0 <= j < |panels| ==> left[i].head != panels[j].head
    {
      var m := LeftFrom(cs, k, i);
      assert RingOf(list, cs)[m + 1] == left[i].head;
      forall j | 0 <= j < |panels|
        ensures left[i].head != panels[j].head
      {
        assert panels[j] in panels;
        var n: nat :| n < k && cs[n] == panels[j];
        HeadsApart(list, cs, m, n);
      }
    }
    forall j | 0 <= j < |panels|
      ensures panels[j].head != list
    {
      assert panels[j] in panels;
      var n: nat :| n < k && cs[n] == panels[j];
      HeadsApart(list, cs, n, n);
    }
  }

  /** The state of the loop after k connectors. */
  ghost predicate Moving(list: ListHead<ListedConnector>, panelList: ListHead<ListedConnector>,
                         cs: seq<ListedConnector>, k: int)
    requires 0 <= k <= |cs|
    reads list, panelList, Heads(cs), Heads(Left(cs, k)), Heads(Panels(cs[..k]))
  {
    Ring(RingOf(list, Left(cs, k))) && Ring(RingOf(panelList, Panels(cs[..k]))) &&
    list.entry == None &&
    forall i :: 0 <= i < |cs| ==> cs[i].head.entry == Some(cs[i])
  }

  method Visit(list: ListHead<ListedConnector>, panelList: ListHead<ListedConnector>, pos: ListedConnector,
               ghost cs: seq<ListedConnector>, ghost k: int)
    requires Distinct(RingOf(list, cs)) && panelList !in RingOf(list, cs)
    requires 0 <= k < |cs| && pos == cs[k] && Moving(list, panelList, cs, k)
    modifies list, panelList, Heads(cs)
    ensures Moving(list, panelList, cs, k + 1)
  {
    LeftStep(cs, k);
    RingsApart(list, panelList, cs, k);
    LeftMembers(cs, k);
    HeadsWithin(Left(cs, k), cs);
    HeadsWithin(Panels(cs[..k]), cs);
    ghost var left, panels := Left(cs, k), Panels(cs[..k]);
    hide Ring, Left, Panels, Others, IsPanel, Distinct, Without;
    MoveOne(list, panelList, pos, left, panels, |Others(cs[..k])|);
    assert forall i :: 0 <= i < |cs| ==> cs[i].head == Heads(cs)[i] && cs[i].head.entry == Some(cs[i]);
  }

  /** list_entry of the head after `n`, or of the first head when there is no `n`. */
  method EntryAfter(list: ListHead<ListedConnector>, n: Option<ListedConnector>,
                    ghost panelList: ListHead<ListedConnector>,
                    ghost cs: seq<ListedConnector>, ghost k: int)
    returns (after: Option<ListedConnector>)
    requires 0 <= k <= |cs| && Moving(list, panelList, cs, k)
    requires n == if k < |cs| then Some(cs[k]) else None
    ensures k < |cs| ==> after == if k + 1 < |cs| then Some(cs[k + 1]) else None
    ensures Moving(list, panelList, cs, k)
  {
    ghost var i := |Others(cs[..k])|;
    if k < |cs| { LeftStep(cs, k); }
    NextEntry(list, Left(cs, k), if k < |cs| then i else -1);
    hide Ring, Others;
    var link := if n.Some? then n.value.head.next else list.next;
    after := link.entry;
  }

  lemma HeadsWithin(a: seq<ListedConnector>, cs: seq<ListedConnector>)
    requires forall c :: c in a ==> c in cs
    ensures forall i :: 0 <= i < |a| ==> a[i].head in Heads(cs)
  {
    forall i | 0 <= i < |a|
      ensures a[i].head in Heads(cs)
    {
      assert a[i] in a;
      var k :| 0 <= k < |cs| && cs[k] == a[i];
      assert Heads(cs)[k] == a[i].head;
    }
  }

  lemma JoinHeads(list: ListHead<ListedConnector>, panelList: ListHead<ListedConnector>, cs: seq<ListedConnector>,
                  r: seq<ListHead<ListedConnector>>, s: seq<ListHead<ListedConnector>>)
    requires Distinct(RingOf(list, cs)) && panelList !in RingOf(list, cs)
    requires Moving(list, panelList, cs, |cs|)
    requires r == RingOf(panelList, Panels(cs)) && s == RingOf(list, Others(cs))
    ensures Ring(r) && Ring(s) && list.next == s[Succ(0, |s|)]
    ensures forall h :: h in s ==> h !in r
    ensures list.entry == None
    ensures forall i :: 0 <= i < |cs| ==> cs[i].head.entry == Some(cs[i])
  {
    hide Ring, Left, Panels, Others, IsPanel, Distinct, LinkedAt, RingOf, Heads;
    LeftEnd(cs);
    RingsApart(list, panelList, cs, |cs|);
    NextEntry(list, Others(cs), -1);
  }

  lemma JoinedRing(list: ListHead<ListedConnector>, a: seq<ListedConnector>, b: seq<ListedConnector>,
                   heads: seq<ListHead<ListedConnector>>)
    requires heads == Heads(a)
    ensures Insert(RingOf(list, b), 1, heads) == RingOf(list, a + b)
  {
  }

  lemma JoinedEntries(cs: seq<ListedConnector>)
    requires forall i :: 0 <= i < |cs| ==> cs[i].head.entry == Some(cs[i])
    ensures forall i :: 0 <= i < |Panels(cs) + Others(cs)| ==>
      (Panels(cs) + Others(cs))[i].head.entry == Some((Panels(cs) + Others(cs))[i])
  {
    PartMembers(cs);
    var t := Panels(cs) + Others(cs);
    assert forall i :: 0 <= i < |t| ==> t[i] in Panels(cs) || t[i] in Others(cs);
    hide *;
    assert forall i :: 0 <= i < |t| ==> t[i] in cs;
  }

  lemma Joined(list: ListHead<ListedConnector>, cs: seq<ListedConnector>, r: seq<ListHead<ListedConnector>>,
               s: seq<ListHead<ListedConnector>>)
    requires r != [] && r[1..] == Heads(Panels(cs)) && s == RingOf(list, Others(cs))
    requires Ring(Insert(s, 1, r[1..])) && list.entry == None
    requires forall i :: 0 <= i < |cs| ==> cs[i].head.entry == Some(cs[i])
    ensures Holds(list, Panels(cs) + Others(cs))
  {
    JoinedRing(list, Panels(cs), Others(cs), r[1..]);
    JoinedEntries(cs);
    hide Ring, Panels, Others, Insert, RingOf, Heads;
  }

  method JoinPanels(list: ListHead<ListedConnector>, panelList: ListHead<ListedConnector>,
                    ghost cs: seq<ListedConnector>)
    requires Distinct(RingOf(list, cs)) && panelList !in RingOf(list, cs)
    requires Moving(list, panelList, cs, |cs|)
    modifies list, panelList, Heads(cs)
    ensures Holds(list, Panels(cs) + Others(cs))
  {
    ghost var r, s := RingOf(panelList, Panels(cs)), RingOf(list, Others(cs));
    JoinHeads(list, panelList, cs, r, s);
    PartMembers(cs);
    HeadsWithin(Panels(cs), cs);
    HeadsWithin(Others(cs), cs);
    assert r[1..] == Heads(Panels(cs));
    hide *;
    var tmp2 := list.next;
    Splice(panelList, list, tmp2, r, s, 1);
    Joined(list, cs, r, s);
  }

  lemma StartMoving(list: ListHead<ListedConnector>, panelList: ListHead<ListedConnector>, cs: seq<ListedConnector>)
    requires Holds(list, cs) && Ring([panelList])
    ensures Moving(list, panelList, cs, 0)
    ensures Distinct(RingOf(list, cs))
  {
    assert Left(cs, 0) == cs;
    assert Panels(cs[..0]) == [] && RingOf(panelList, []) == [panelList];
    hide Distinct, LinkedAt, Others, Panels;
  }

  /** drm_helper_move_panel_connectors_to_head */
  method MovePanelsToHead(list: ListHead<ListedConnector>, ghost cs: seq<ListedConnector>)
    requires Holds(list, cs)
    modifies list, Heads(cs)
    ensures Holds(list, Panels(cs) + Others(cs))
  {
    var panelList := new ListHead<ListedConnector>();
    StartMoving(list, panelList, cs);
    NextEntry(list, cs, -1);
    hide Ring, Panels, Others, IsPanel, Left, Distinct;
    var pos := list.next.entry;
    assert cs != [] ==> list.next == cs[0].head && cs[0].head.entry == Some(cs[0]);
    hide Holds, Moving;
    var n := EntryAfter(list, pos, panelList, cs, 0);
    ghost var k := 0;
    while pos.Some?
      invariant 0 <= k <= |cs|
      invariant pos == if k < |cs| then Some(cs[k]) else None
      invariant k < |cs| ==> n == if k + 1 < |cs| then Some(cs[k + 1]) else None
      invariant Moving(list, panelList, cs, k)
      decreases |cs| - k
    {
      Visit(list, panelList, pos.value, cs, k);
      k := k + 1;
      pos := n;
      n := EntryAfter(list, n, panelList, cs, k);
    }
    JoinPanels(list, panelList, cs);
  }
}
