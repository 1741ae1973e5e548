/** Seats, candidates and dependencies of a started workspace, and what a
    selection of one candidate per seat makes of them. */
module Network {
  import opened Basics
  import opened Graphs

  type Seat = nat
  type Cand = nat

  datatype RelType =
    | PreDepends | Depends | Conflicts | Provides | Replaces
    | Breaks | Recommends | Enhances | Suggests

  /** A dep lists the candidates that can satisfy it. A dep without relation
      belongs to the goal or was derived in reverse. */
  datatype Dep = Dep(alts: seq<Cand>, rel: Option<RelType>, reversed: bool, reversedConflict: bool)

  /** `seatOf` and `deps` are indexed by candidate id. */
  datatype Net = Net(seats: nat, seatOf: seq<Seat>, deps: seq<seq<Dep>>)

  /** The selected candidate of every seat, indexed by seat id. */
  type Selection = seq<Cand>

  predicate ValidNet(net: Net) {
    && |net.deps| == |net.seatOf|
    && (forall c :: 0 <= c < |net.seatOf| ==> net.seatOf[c] < net.seats)
    && (forall c, k :: 0 <= c < |net.deps| && 0 <= k < |net.deps[c]| ==> ValidDep(net, net.deps[c][k]))
  }

  predicate ValidDep(net: Net, d: Dep) {
    forall a :: a in d.alts ==> a < |net.seatOf|
  }

  predicate ValidSelection(net: Net, sel: Selection) {
    && |sel| == net.seats
    && forall s :: 0 <= s < |sel| ==> sel[s] < |net.seatOf| && net.seatOf[sel[s]] == s
  }

  predicate IsSelected(net: Net, sel: Selection, c: Cand) {
    c < |net.seatOf| && net.seatOf[c] < |sel| && sel[net.seatOf[c]] == c
  }

  function SeatOf(net: Net, c: Cand): Seat {
    if c < |net.seatOf| then net.seatOf[c] else 0
  }

  predicate IsSeat(net: Net, s: nat) {
    s < net.seats
  }

  ghost function AllSeats(net: Net): set<Seat> {
    set s: nat | s < net.seats && IsSeat(net, s)
  }

  /** The deps of the selected candidate of a seat. */
  function SeatDeps(net: Net, sel: Selection, s: Seat): seq<Dep> {
    if s < |sel| && sel[s] < |net.deps| then net.deps[sel[s]] else []
  }

  predicate DepSatisfied(net: Net, sel: Selection, d: Dep) {
    exists a :: a in d.alts && IsSelected(net, sel, a)
  }

  /** The seats that the selected alternatives of some deps sit on, in order. */
  function AltSeats(net: Net, sel: Selection, alts: seq<Cand>): (r: seq<Seat>)
    ensures forall w :: w in r <==> exists a :: a in alts && IsSelected(net, sel, a) && SeatOf(net, a) == w
  {
    if alts == [] then []
    else
      assert alts == [alts[0]] + alts[1..];
      (if IsSelected(net, sel, alts[0]) then [SeatOf(net, alts[0])] else []) + AltSeats(net, sel, alts[1..])
  }

  function DepSeats(net: Net, sel: Selection, deps: seq<Dep>): (r: seq<Seat>)
    ensures forall w :: w in r <==> exists d :: d in deps && w in AltSeats(net, sel, d.alts)
  {
    if deps == [] then []
    else
      assert deps == [deps[0]] + deps[1..];
      AltSeats(net, sel, deps[0].alts) + DepSeats(net, sel, deps[1..])
  }

  /** Edges lead from a seat to the seats of the selected alternatives of its deps. */
  function SelectedGraph(net: Net, sel: Selection): Graph {
    seq(net.seats, s requires 0 <= s < net.seats => DepSeats(net, sel, SeatDeps(net, sel, s)))
  }

  lemma SelectedGraphValid(net: Net, sel: Selection)
    requires ValidNet(net) && ValidSelection(net, sel)
    ensures ValidGraph(SelectedGraph(net, sel)) && |SelectedGraph(net, sel)| == net.seats
  {
    var g := SelectedGraph(net, sel);
    forall s, k | 0 <= s < |g| && 0 <= k < |g[s]| ensures g[s][k] < |g| {
      assert g[s][k] in g[s];
    }
  }

  lemma SelectedEdge(net: Net, sel: Selection, s: Seat, d: Dep, a: Cand)
    requires s < net.seats && d in SeatDeps(net, sel, s) && a in d.alts && IsSelected(net, sel, a)
    ensures SeatOf(net, a) in SelectedGraph(net, sel)[s]
  {
    assert SeatOf(net, a) in AltSeats(net, sel, d.alts);
  }
}
