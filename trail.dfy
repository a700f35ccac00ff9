/** The per-body trail: display-space points recorded oldest first. Each tick
    pushes one point and, when the trail is then longer than the capacity,
    shifts the oldest one off. */
module Trail {
  import opened Vector

  /** The source's bound on trailPositions. */
  const TrailCapacity: nat := 1000

  /** One push followed by at most one shift. */
  function Pushed<T>(t: seq<T>, p: T, cap: nat): (r: seq<T>)
    ensures |r| == if |t| + 1 > cap then |t| else |t| + 1
    ensures r == (t + [p])[|t| + 1 - |r|..]
    ensures cap > 0 ==> |r| > 0 && r[|r| - 1] == p
    ensures |t| <= cap ==> |r| <= cap
  {
    var pushed := t + [p];
    if |pushed| > cap then pushed[1..] else pushed
  }

  /** The last min(|s|, cap) elements of s. */
  function Window<T>(s: seq<T>, cap: nat): (r: seq<T>)
    ensures |r| == if |s| <= cap then |s| else cap
  {
    if |s| <= cap then s else s[|s| - cap..]
  }

  /** Recording the points qs one per tick, oldest first. */
  function PushAll<T>(t: seq<T>, qs: seq<T>, cap: nat): seq<T>
    decreases |qs|
  {
    if qs == [] then t else PushAll(Pushed(t, qs[0], cap), qs[1..], cap)
  }

  /** Dropping the head of a sequence longer than the capacity keeps its window. */
  lemma WindowDropHead<T>(s: seq<T>, cap: nat)
    requires |s| > cap
    ensures Window(s[1..], cap) == Window(s, cap)
  {
    assert s[1..][|s| - 1 - cap..] == s[|s| - cap..];
  }

  /** FIFO: starting from a trail within capacity, recording qs leaves exactly
      the newest min(|t| + |qs|, cap) points of t + qs, in order. */
  lemma {:induction false} PushAllWindow<T>(t: seq<T>, qs: seq<T>, cap: nat)
    requires |t| <= cap
    ensures PushAll(t, qs, cap) == Window(t + qs, cap)
    decreases |qs|
  {
    if qs == [] {
      assert t + qs == t;
    } else {
      var rest := qs[1..];
      var u := t + [qs[0]];
      assert u + rest == t + qs by {
        assert qs == [qs[0]] + rest;
      }
      var next := Pushed(t, qs[0], cap);
      assert PushAll(t, qs, cap) == PushAll(next, rest, cap);
      PushAllWindow(next, rest, cap);
      if |u| > cap {
        assert next == u[1..];
        assert next + rest == (u + rest)[1..];
        WindowDropHead(u + rest, cap);
      } else {
        assert next == u;
      }
    }
  }

  /** Recording capacity + 50 points into an empty trail keeps exactly the last
      `TrailCapacity` of them: the oldest 50 are evicted. */
  lemma OverflowEvictsOldest<T>(qs: seq<T>)
    requires |qs| == TrailCapacity + 50
    ensures PushAll([], qs, TrailCapacity) == qs[50..]
    ensures |PushAll([], qs, TrailCapacity)| == TrailCapacity
  {
    PushAllWindow([], qs, TrailCapacity);
    assert [] + qs == qs;
  }

  /** The flat coordinate array handed to the line geometry: x, y, z of each
      point in turn. */
  function Flatten(t: seq<Vec3>): (r: seq<real>)
    ensures |r| == 3 * |t|
    ensures forall k :: 0 <= k < |t| ==> r[3 * k] == t[k].x && r[3 * k + 1] == t[k].y && r[3 * k + 2] == t[k].z
    decreases |t|
  {
    if t == [] then []
    else
      var last := t[|t| - 1];
      Flatten(t[..|t| - 1]) + [last.x, last.y, last.z]
  }
}
