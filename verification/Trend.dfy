/**
 * dfb_chart_test.cpp, class Trend: a list of runs, newest first, that stands for a sliding
 * window of samples. Whether a new sample is flat enough to join the newest run is an
 * input, so everything here holds for every such decision.
 */
module Trend {
  import opened Bytes

  type Offs = x: int | -0x8000 <= x < 0x8000

  /** size_t of the 32-bit board. */
  const SIZE_MODULUS: nat := 0x1_0000_0000

  /** Vertex(x, y): the sample y, repeated x times. */
  datatype Vertex = Vertex(x: Offs, y: Offs)

  datatype State = State(vertices: seq<Vertex>, length: nat)

  const EMPTY := State([], 0)

  /** The limit as the unsigned comparison sees it: a negative one is huge. */
  function LimitOf(limit: Offs): nat {
    if limit < 0 then SIZE_MODULUS + limit else limit
  }

  /** GetLastVertex: the first sample also opens the list. */
  function Opened(vertices: seq<Vertex>, point: Offs): seq<Vertex> {
    if vertices == [] then [Vertex(1, point)] else vertices
  }

  function Extended(vertices: seq<Vertex>, approxim: Offs, point: Offs, flat: bool): seq<Vertex>
    requires vertices != []
  {
    var last := vertices[0];
    if flat && |vertices| > 1 && last.x < approxim then vertices[0 := last.(x := last.x + 1)]
    else [Vertex(1, point)] + vertices
  }

  function Evicted(vertices: seq<Vertex>): seq<Vertex>
    requires vertices != []
  {
    var n := |vertices| - 1;
    var oldest := vertices[n];
    var left := if oldest.x > 0 then oldest.x - 1 else oldest.x;
    if left == 0 then vertices[..n] else vertices[n := oldest.(x := left)]
  }

  function Pushed(s: State, limit: Offs, approxim: Offs, point: Offs, flat: bool): State {
    var vertices := Extended(Opened(s.vertices, point), approxim, point, flat);
    if s.length + 1 > LimitOf(limit) then State(Evicted(vertices), s.length)
    else State(vertices, s.length + 1)
  }

  class Trend {
    const offsLimit: Offs
    const approxim: Offs
    var vertices: seq<Vertex>
    var length: nat

    ghost function Abs(): State
      reads this
    {
      State(vertices, length)
    }

    constructor (limit: Offs, approximation: Offs)
      ensures Abs() == EMPTY && offsLimit == limit && approxim == approximation
    {
      offsLimit, approxim := limit, approximation;
      vertices, length := [], 0;
    }

    method PushPoint(point: Offs, flat: bool)
      modifies this
      ensures Abs() == Pushed(old(Abs()), offsLimit, approxim, point, flat)
    {
      if |vertices| == 0 {
        vertices := [Vertex(1, point)] + vertices;
      }
      var last := vertices[0];
      if flat && |vertices| > 1 && last.x < approxim {
        vertices := vertices[0 := last.(x := last.x + 1)];
      } else {
        vertices := [Vertex(1, point)] + vertices;
      }
      ghost var grown := Extended(Opened(old(vertices), point), approxim, point, flat);
      assert vertices == grown;
      length := length + 1;
      if length > LimitOf(offsLimit) {
        var back := |vertices| - 1;
        length := length - 1;
        if vertices[back].x > 0 {
          vertices := vertices[back := vertices[back].(x := vertices[back].x - 1)];
        }
        if vertices[back].x == 0 {
          vertices := vertices[..back];
        }
        assert vertices == Evicted(grown);
      }
    }
  }

  // ----- runs -----

  datatype Push = Push(point: Offs, flat: bool)

  function Run(limit: Offs, approxim: Offs, pushes: seq<Push>): State {
    if pushes == [] then EMPTY
    else
      var last := pushes[|pushes| - 1];
      Pushed(Run(limit, approxim, pushes[..|pushes| - 1]), limit, approxim, last.point, last.flat)
  }

  /** The samples in the order pushed, the first one twice. */
  function History(pushes: seq<Push>): (h: seq<Offs>)
    ensures |h| == if pushes == [] then 0 else |pushes| + 1
  {
    if pushes == [] then []
    else if |pushes| == 1 then [pushes[0].point, pushes[0].point]
    else History(pushes[..|pushes| - 1]) + [pushes[|pushes| - 1].point]
  }

  function Width(v: Vertex): nat {
    if v.x < 0 then 0 else v.x
  }

  function Widths(vertices: seq<Vertex>): nat {
    if vertices == [] then 0 else Width(vertices[0]) + Widths(vertices[1..])
  }

  /** The samples the list stands for, oldest first. */
  function Expand(vertices: seq<Vertex>): (s: seq<Offs>)
    ensures |s| == Widths(vertices)
  {
    if vertices == [] then []
    else Expand(vertices[1..]) + Repeat(vertices[0].y, Width(vertices[0]))
  }

  function MaxWidth(approxim: Offs): nat {
    if approxim < 1 then 1 else approxim
  }

  /**
   * The runs lie back to back in h, the newest ending at `end`. Each shows the sample at
   * its start; the oldest has lost `lost` places, its sample among them.
   */
  ghost predicate Aligned(vertices: seq<Vertex>, h: seq<Offs>, end: nat, lost: nat, most: nat)
    requires end <= |h|
    decreases |vertices|
  {
    vertices != [] ==>
      var v := vertices[0];
      && 1 <= v.x <= most && v.x <= end
      && if |vertices| == 1
         then v.x + lost <= most && v.x + lost <= end && v.y == h[end - v.x - lost]
         else v.y == h[end - v.x] && Aligned(vertices[1..], h, end - v.x, lost, most)
  }

  lemma {:induction false} AlignedLater(vertices: seq<Vertex>, h: seq<Offs>, end: nat, lost: nat, most: nat, p: Offs)
    requires end <= |h| && Aligned(vertices, h, end, lost, most)
    ensures Aligned(vertices, h + [p], end, lost, most)
    decreases |vertices|
  {
    if |vertices| > 1 {
      AlignedLater(vertices[1..], h, end - vertices[0].x, lost, most, p);
    }
  }

  lemma {:induction false} AlignedEvicted(vertices: seq<Vertex>, h: seq<Offs>, end: nat, lost: nat, most: nat)
    requires end <= |h| && Aligned(vertices, h, end, lost, most)
    requires Widths(vertices) >= 2
    ensures exists lost': nat :: Aligned(Evicted(vertices), h, end, lost', most)
    ensures Widths(Evicted(vertices)) == Widths(vertices) - 1 && Evicted(vertices) != []
    decreases |vertices|
  {
    var v, rest := vertices[0], vertices[1..];
    if |vertices| == 1 {
      assert Evicted(vertices) == [v.(x := v.x - 1)];
      assert Aligned(Evicted(vertices), h, end, lost + 1, most);
    } else {
      AlignedPositive(rest, h, end - v.x, lost, most);
      if Widths(rest) == 1 {
        OldestEvicted(vertices);
        assert Aligned([v], h, end, 0, most);
      } else {
        AlignedEvicted(rest, h, end - v.x, lost, most);
        var lost': nat :| Aligned(Evicted(rest), h, end - v.x, lost', most);
        EvictedBehind(vertices);
        AlignedCons(v, Evicted(rest), h, end, lost', most);
        assert Aligned(Evicted(vertices), h, end, lost', most);
      }
    }
  }

  lemma AlignedCons(v: Vertex, rest: seq<Vertex>, h: seq<Offs>, end: nat, lost: nat, most: nat)
    requires rest != [] && 1 <= v.x <= most && v.x <= end <= |h|
    requires v.y == h[end - v.x] && Aligned(rest, h, end - v.x, lost, most)
    ensures Aligned([v] + rest, h, end, lost, most)
  {
    assert ([v] + rest)[1..] == rest;
  }

  /** The oldest of two runs goes when its last place does. */
  lemma OldestEvicted(vertices: seq<Vertex>)
    requires |vertices| >= 2 && Widths(vertices[1..]) == 1 >= |vertices[1..]|
    requires vertices[1].x > 0
    ensures Evicted(vertices) == [vertices[0]] && Widths(Evicted(vertices)) == Widths(vertices) - 1
  {
    assert vertices[1..] == [vertices[1]];
  }

  /** Eviction does not touch the newest run as long as there is another. */
  lemma EvictedBehind(vertices: seq<Vertex>)
    requires |vertices| >= 2
    ensures Evicted(vertices) == [vertices[0]] + Evicted(vertices[1..])
    ensures Widths(Evicted(vertices)) == Width(vertices[0]) + Widths(Evicted(vertices[1..]))
  {
    assert Evicted(vertices)[1..] == Evicted(vertices[1..]);
  }

  lemma {:induction false} AlignedPositive(vertices: seq<Vertex>, h: seq<Offs>, end: nat, lost: nat, most: nat)
    requires end <= |h| && Aligned(vertices, h, end, lost, most)
    ensures |vertices| <= Widths(vertices) <= end
    decreases |vertices|
  {
    if |vertices| > 1 {
      AlignedPositive(vertices[1..], h, end - vertices[0].x, lost, most);
    }
  }

  lemma AlignedExtended(vertices: seq<Vertex>, h: seq<Offs>, lost: nat, approxim: Offs, p: Offs, flat: bool)
    requires vertices != [] && Aligned(vertices, h, |h|, lost, MaxWidth(approxim))
    ensures Aligned(Extended(vertices, approxim, p, flat), h + [p], |h| + 1, lost, MaxWidth(approxim))
    ensures Widths(Extended(vertices, approxim, p, flat)) == Widths(vertices) + 1
  {
    AlignedLater(vertices, h, |h|, lost, MaxWidth(approxim), p);
    var last := vertices[0];
    if flat && |vertices| > 1 && last.x < approxim {
      assert Extended(vertices, approxim, p, flat)[1..] == vertices[1..];
    } else {
      assert Extended(vertices, approxim, p, flat)[1..] == vertices;
    }
  }

  ghost predicate Inv(s: State, limit: Offs, approxim: Offs, h: seq<Offs>, n: nat) {
    && s.vertices != []
    && Widths(s.vertices) == s.length + 1
    && s.length == (if n <= LimitOf(limit) then n else LimitOf(limit))
    && exists lost: nat :: Aligned(s.vertices, h, |h|, lost, MaxWidth(approxim))
  }

  /** One push keeps everything, also when it merges in front and evicts at the back. */
  lemma PushKeeps(s: State, limit: Offs, approxim: Offs, h: seq<Offs>, n: nat, p: Offs, flat: bool)
    requires Inv(s, limit, approxim, h, n)
    ensures Inv(Pushed(s, limit, approxim, p, flat), limit, approxim, h + [p], n + 1)
  {
    var most := MaxWidth(approxim);
    var lost: nat :| Aligned(s.vertices, h, |h|, lost, most);
    AlignedExtended(s.vertices, h, lost, approxim, p, flat);
    if s.length + 1 > LimitOf(limit) {
      AlignedEvicted(Extended(s.vertices, approxim, p, flat), h + [p], |h + [p]|, lost, most);
    }
  }

  lemma FirstPush(limit: Offs, approxim: Offs, p: Offs, flat: bool)
    ensures Inv(Pushed(EMPTY, limit, approxim, p, flat), limit, approxim, [p, p], 1)
  {
    var begun := [Vertex(1, p)];
    assert Aligned(begun, [p], 1, 0, MaxWidth(approxim));
    AlignedExtended(begun, [p], 0, approxim, p, flat);
    assert [p] + [p] == [p, p];
    if 1 > LimitOf(limit) {
      AlignedEvicted(Extended(begun, approxim, p, flat), [p, p], 2, 0, MaxWidth(approxim));
    }
  }

  lemma {:induction false} RunKeeps(limit: Offs, approxim: Offs, pushes: seq<Push>)
    requires pushes != []
    ensures Inv(Run(limit, approxim, pushes), limit, approxim, History(pushes), |pushes|)
  {
    hide Inv, Pushed;
    var n := |pushes| - 1;
    if n == 0 {
      assert Run(limit, approxim, pushes[..0]) == EMPTY;
      FirstPush(limit, approxim, pushes[0].point, pushes[0].flat);
    } else {
      RunKeeps(limit, approxim, pushes[..n]);
      PushKeeps(Run(limit, approxim, pushes[..n]), limit, approxim, History(pushes[..n]), n,
                pushes[n].point, pushes[n].flat);
    }
  }

  // ----- what the window shows -----

  /** s[i] is one of the samples at most `most` - 1 places older than its own place in h. */
  ghost predicate Shows(s: seq<Offs>, h: seq<Offs>, end: nat, most: nat) {
    && |s| <= end <= |h|
    && forall i :: 0 <= i < |s| ==>
         exists j: nat :: j < |h| && end - |s| + i - most < j <= end - |s| + i && s[i] == h[j]
  }

  lemma {:induction false} AlignedShows(vertices: seq<Vertex>, h: seq<Offs>, end: nat, lost: nat, most: nat)
    requires end <= |h| && Aligned(vertices, h, end, lost, most)
    ensures Shows(Expand(vertices), h, end, most)
    decreases |vertices|
  {
    if vertices != [] {
      var v, rest := vertices[0], vertices[1..];
      var tail, s := Expand(rest), Expand(vertices);
      AlignedPositive(vertices, h, end, lost, most);
      if rest != [] {
        AlignedShows(rest, h, end - v.x, lost, most);
      }
      forall i | 0 <= i < |s|
        ensures exists j: nat :: j < |h| && end - |s| + i - most < j <= end - |s| + i && s[i] == h[j]
      {
        if i < |tail| {
          var j: nat :| j < |h| && end - v.x - |tail| + i - most < j <= end - v.x - |tail| + i && tail[i] == h[j];
          assert s[i] == h[j];
        } else {
          var j := end - v.x - if rest == [] then lost else 0;
          assert s[i] == v.y == h[j];
        }
      }
    }
  }

  /**
   * After any pushes and any merge decisions the list, spelled out oldest to newest, has
   * min(n, limit) + 1 values standing for the newest places of p1, p1, p2, .., pn, and each
   * is a pushed sample at most max(1, approxim) - 1 places older than its own.
   */
  lemma WindowShowsTail(limit: Offs, approxim: Offs, pushes: seq<Push>)
    requires pushes != []
    ensures
      var s, n := Run(limit, approxim, pushes), |pushes|;
      && |Expand(s.vertices)| == (if n <= LimitOf(limit) then n else LimitOf(limit)) + 1
      && Shows(Expand(s.vertices), History(pushes), n + 1, MaxWidth(approxim))
  {
    RunKeeps(limit, approxim, pushes);
    var s, h := Run(limit, approxim, pushes), History(pushes);
    var lost: nat :| Aligned(s.vertices, h, |h|, lost, MaxWidth(approxim));
    AlignedShows(s.vertices, h, |h|, lost, MaxWidth(approxim));
  }

  /** Without merging room the window is exact. */
  lemma ExactWhenNothingMerges(limit: Offs, approxim: Offs, pushes: seq<Push>)
    requires pushes != [] && approxim <= 1
    ensures
      var e, h := Expand(Run(limit, approxim, pushes).vertices), History(pushes);
      |e| <= |h| && e == h[|h| - |e|..]
  {
    hide Shows, Expand, Run, History;
    WindowShowsTail(limit, approxim, pushes);
    ShowsExactly(Expand(Run(limit, approxim, pushes).vertices), History(pushes));
  }

  lemma ShowsExactly(e: seq<Offs>, h: seq<Offs>)
    requires Shows(e, h, |h|, 1)
    ensures |e| <= |h| && e == h[|h| - |e|..]
  {
    forall i | 0 <= i < |e| ensures e[i] == h[|h| - |e|..][i] {
      var j: nat :| j < |h| && |h| - |e| + i - 1 < j <= |h| - |e| + i && e[i] == h[j];
      assert j == |h| - |e| + i;
    }
  }

  ghost predicate WidthsWithin(vertices: seq<Vertex>, most: nat) {
    forall i :: 0 <= i < |vertices| ==> 1 <= vertices[i].x <= most
  }

  lemma {:induction false} AlignedWithin(vertices: seq<Vertex>, h: seq<Offs>, end: nat, lost: nat, most: nat)
    requires end <= |h| && Aligned(vertices, h, end, lost, most)
    ensures WidthsWithin(vertices, most)
    decreases |vertices|
  {
    if |vertices| > 1 {
      AlignedWithin(vertices[1..], h, end - vertices[0].x, lost, most);
      assert vertices == [vertices[0]] + vertices[1..];
    }
  }

  /**
   * The bookkeeping of every run: widths, their sum, the length, and no empty list. With a
   * negative limit nothing is evicted in any run that could be made.
   */
  lemma RunBookkeeping(limit: Offs, approxim: Offs, pushes: seq<Push>)
    requires pushes != []
    ensures
      var s := Run(limit, approxim, pushes);
      && s.vertices != [] && s.length <= LimitOf(limit)
      && Widths(s.vertices) == s.length + 1
      && WidthsWithin(s.vertices, MaxWidth(approxim))
      && (limit >= 0 ==> s.length == if |pushes| <= limit then |pushes| else limit)
      && (limit < 0 && |pushes| <= 0xFFFF_0000 ==> s.length == |pushes|)
  {
    RunKeeps(limit, approxim, pushes);
    var s, h := Run(limit, approxim, pushes), History(pushes);
    var lost: nat :| Aligned(s.vertices, h, |h|, lost, MaxWidth(approxim));
    AlignedWithin(s.vertices, h, |h|, lost, MaxWidth(approxim));
  }

  // ----- how many runs there are, and how wide -----

  /** The first push leaves two runs of its sample, or one if there is no room for two. */
  lemma FirstPushIs(limit: Offs, approxim: Offs, p: Push)
    ensures
      var v := Run(limit, approxim, [p]).vertices;
      v == if LimitOf(limit) == 0 then [Vertex(1, p.point)] else [Vertex(1, p.point), Vertex(1, p.point)]
  {
    assert [p][..0] == [];
  }

  /** A sample joins the newest run if it is flat, there is another run and the newest has room. */
  predicate Joins(runs: seq<Vertex>, approxim: Offs, p: Push)
    requires runs != []
  {
    p.flat && |runs| > 1 && runs[0].x < approxim
  }

  /**
   * Every later push: it widens the newest run by one or adds a run of width 1 in front;
   * once limit pushes have been made it also takes one place from the oldest run, and the
   * run with it if that was its last; all runs between stay as they are.
   */
  lemma PushIs(limit: Offs, approxim: Offs, pushes: seq<Push>, p: Push)
    requires pushes != []
    ensures
      var v, t := Run(limit, approxim, pushes).vertices, Run(limit, approxim, pushes + [p]).vertices;
      && v != []
      && var added := if Joins(v, approxim, p) then 0 else 1;
      var full, oldest := |pushes| >= LimitOf(limit), v[|v| - 1];
      && |t| == |v| + added - (if full && oldest.x == 1 then 1 else 0) > 0
      && t[0].x == (if added == 0 then v[0].x + 1 else 1)
      && t[0].y == (if added == 0 then v[0].y else p.point)
      && (forall j :: 1 - added <= j < |v| - 1 ==> t[j + added] == v[j])
      && (!full && |v| > 1 - added ==> t[|t| - 1] == oldest)
      && (full && oldest.x > 1 ==> t[|t| - 1].x == oldest.x - 1 && t[|t| - 1].y == oldest.y)
  {
    hide Run, Extended, Evicted;
    PushStep(limit, approxim, pushes, p);
    var v := Run(limit, approxim, pushes).vertices;
    ExtendedIs(v, approxim, p);
    EvictedIs(Extended(v, approxim, p.point, p.flat));
  }

  lemma PushStep(limit: Offs, approxim: Offs, pushes: seq<Push>, p: Push)
    requires pushes != []
    ensures
      var v := Run(limit, approxim, pushes).vertices;
      && v != [] && v[|v| - 1].x >= 1
      && var u := Extended(v, approxim, p.point, p.flat);
      Run(limit, approxim, pushes + [p]).vertices == if |pushes| >= LimitOf(limit) then Evicted(u) else u
  {
    hide Aligned, Extended, Evicted, Widths;
    RunKeeps(limit, approxim, pushes);
    RunBookkeeping(limit, approxim, pushes);
    assert (pushes + [p])[..|pushes|] == pushes;
  }

  lemma ExtendedIs(v: seq<Vertex>, approxim: Offs, p: Push)
    requires v != []
    ensures
      var u, added := Extended(v, approxim, p.point, p.flat), if Joins(v, approxim, p) then 0 else 1;
      && |u| == |v| + added >= 2
      && u[0].x == (if added == 0 then v[0].x + 1 else 1)
      && u[0].y == (if added == 0 then v[0].y else p.point)
      && forall j :: 1 - added <= j < |v| ==> u[j + added] == v[j]
  {
  }

  lemma EvictedIs(u: seq<Vertex>)
    requires u != [] && u[|u| - 1].x >= 1
    ensures
      var t, n := Evicted(u), |u| - 1;
      && |t| == (if u[n].x == 1 then n else n + 1)
      && (forall j :: 0 <= j < n ==> t[j] == u[j])
      && (u[n].x > 1 ==> t[n].x == u[n].x - 1 && t[n].y == u[n].y)
  {
  }

  /** While nothing is evicted, a push adds a run exactly when its sample cannot join the newest. */
  lemma AddsRunIff(limit: Offs, approxim: Offs, pushes: seq<Push>, p: Push)
    requires pushes != [] && |pushes| < LimitOf(limit)
    ensures
      var v, t := Run(limit, approxim, pushes).vertices, Run(limit, approxim, pushes + [p]).vertices;
      && v != [] && |v| <= |t| <= |v| + 1
      && (|t| == |v| + 1 <==> !p.flat || |v| == 1 || v[0].x >= approxim)
  {
    PushIs(limit, approxim, pushes, p);
  }

  ghost predicate AllFlat(pushes: seq<Push>) {
    forall i :: 0 <= i < |pushes| ==> pushes[i].flat
  }

  /** The widths of a pile of flat runs, newest first. */
  ghost predicate Piled(v: seq<Vertex>, full: nat, rest: nat, most: nat) {
    && |v| == full + 2
    && v[0].x == rest && v[full + 1].x == 1
    && forall j :: 1 <= j <= full ==> v[j].x == most
  }

  /** Without eviction a flat sample widens the newest run until that is full. */
  lemma FlatPush(limit: Offs, approxim: Offs, pushes: seq<Push>, p: Push, full: nat, rest: nat)
    requires pushes != [] && |pushes| < LimitOf(limit) && p.flat
    requires Piled(Run(limit, approxim, pushes).vertices, full, rest, MaxWidth(approxim))
    requires 1 <= rest <= MaxWidth(approxim)
    ensures
      var t := Run(limit, approxim, pushes + [p]).vertices;
      if rest < MaxWidth(approxim) then Piled(t, full, rest + 1, MaxWidth(approxim))
      else Piled(t, full + 1, 1, MaxWidth(approxim))
  {
    hide Run;
    PushStep(limit, approxim, pushes, p);
  }

  lemma OneFullRunLess(a: nat, full: nat)
    ensures if full == 0 then a * full == 0 else a * full == a * (full - 1) + a
  {
  }

  /**
   * Flat samples only: what is left over, the full runs, and the first sample alone. n
   * pushes with n == a * full + rest, a being the widest a run may be, leave full + 2 runs.
   */
  lemma {:induction false} FlatRuns(limit: Offs, approxim: Offs, pushes: seq<Push>, full: nat, rest: nat)
    requires AllFlat(pushes) && |pushes| <= LimitOf(limit)
    requires |pushes| == MaxWidth(approxim) * full + rest && 1 <= rest <= MaxWidth(approxim)
    ensures
      var v := Run(limit, approxim, pushes).vertices;
      && |v| == full + 2
      && v[0].x == rest && v[full + 1].x == 1
      && forall j :: 1 <= j <= full ==> v[j].x == MaxWidth(approxim)
    decreases |pushes|
  {
    hide Run, MaxWidth;
    var n, a := |pushes|, MaxWidth(approxim);
    var init, last := pushes[..n - 1], pushes[n - 1];
    assert init + [last] == pushes;
    OneFullRunLess(a, full);
    if rest > 1 {
      FlatRuns(limit, approxim, init, full, rest - 1);
      FlatPush(limit, approxim, init, last, full, rest - 1);
    } else if full > 0 {
      FlatRuns(limit, approxim, init, full - 1, a);
      FlatPush(limit, approxim, init, last, full - 1, a);
    } else {
      assert pushes == [last];
      FirstPushIs(limit, approxim, last);
    }
  }
}
