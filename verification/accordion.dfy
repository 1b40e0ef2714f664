/**
  The description panels of the workout page (`toggleAccordion` in
  treino/treino.js). A panel is identified by the sanitized exercise id;
  each has an open flag (the `open` class) and an expand icon.
 */
module Accordion {

  datatype Icon = ExpandMore | ExpandLess

  datatype Panel = Panel(open: bool, icon: Icon)

  /** The rendered panels, by exercise id. */
  type Panels = map<string, Panel>

  function OpenPanels(ps: Panels): set<string> {
    set k | k in ps && ps[k].open
  }

  /** Every icon points up exactly on the open panels. */
  predicate IconsAgree(ps: Panels) {
    forall k :: k in ps ==> (ps[k].icon == ExpandLess <==> ps[k].open)
  }

  /** `toggleAccordion(id)`, called from the link of a rendered unit: an
      open panel is closed; a closed one is opened after every other open
      panel has been closed. */
  function Toggle(ps: Panels, id: string): (r: Panels)
    requires id in ps
    ensures r.Keys == ps.Keys
    ensures OpenPanels(r) == if ps[id].open then OpenPanels(ps) - {id} else {id}
    ensures |OpenPanels(ps)| <= 1 ==> |OpenPanels(r)| <= 1
    ensures IconsAgree(ps) ==> IconsAgree(r)
    ensures forall k :: k in ps && k != id && !ps[k].open ==> r[k] == ps[k]
  {
    if ps[id].open then ps[id := Panel(false, ExpandMore)]
    else
      var r := map k | k in ps :: if k == id then Panel(true, ExpandLess) else if ps[k].open then Panel(false, ExpandMore) else ps[k];
      assert OpenPanels(r) == {id};
      r
  }

  /** Toggling a panel twice, starting with every panel closed, gives the
      panels back unchanged. */
  lemma ToggleTwice(ps: Panels, id: string)
    requires id in ps && OpenPanels(ps) == {} && IconsAgree(ps)
    ensures Toggle(Toggle(ps, id), id) == ps
  {
    var once := Toggle(ps, id);
    assert once[id].open;
    var twice := Toggle(once, id);
    assert twice == once[id := Panel(false, ExpandMore)];
    assert ps[id] == Panel(false, ExpandMore);
    forall k | k in ps
      ensures twice[k] == ps[k]
    {
      assert k !in OpenPanels(ps);
    }
  }

  /** Clicks on the links of `ids`, in order. */
  function Clicks(ps: Panels, ids: seq<string>): Panels
    requires forall i :: 0 <= i < |ids| ==> ids[i] in ps
    decreases |ids|
  {
    if |ids| == 0 then ps else Clicks(Toggle(ps, ids[0]), ids[1..])
  }

  /** Whatever the clicks, at most one panel is open and the icons agree,
      provided that held at the start (it does after rendering: all
      panels closed). */
  lemma {:induction false} ClicksKeepOneOpen(ps: Panels, ids: seq<string>)
    requires forall i :: 0 <= i < |ids| ==> ids[i] in ps
    requires |OpenPanels(ps)| <= 1 && IconsAgree(ps)
    ensures |OpenPanels(Clicks(ps, ids))| <= 1
    ensures IconsAgree(Clicks(ps, ids))
    decreases |ids|
  {
    if |ids| > 0 {
      var next := Toggle(ps, ids[0]);
      assert forall i :: 0 <= i < |ids[1..]| ==> ids[1..][i] in next;
      ClicksKeepOneOpen(next, ids[1..]);
    }
  }
}
