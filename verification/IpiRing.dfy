/** The round of the scheduler interrupt over the CPU cores: each firing stores the next LAPIC id as the
    active one and sends the interrupt on to a core. Id zero marks the round as not yet started. */
module IpiRing {

  ghost predicate Distinct(ids: seq<nat>) {
    forall i, j :: 0 <= i < j < |ids| ==> ids[i] != ids[j]
  }

  /** A new active id and the core the interrupt is sent to. */
  datatype Fired = Fired(active: nat, target: nat)

  /** The first position of an id. */
  function IndexOf(ids: seq<nat>, id: nat): (i: nat)
    requires id in ids
    ensures i < |ids| && ids[i] == id && forall j :: 0 <= j < i ==> ids[j] != id
  {
    if ids[0] == id then 0 else 1 + IndexOf(ids[1..], id)
  }

  /** The position after `i` on the cycle. */
  function After(n: nat, i: nat): (r: nat)
    requires i < n
    ensures r < n
  {
    if i + 1 == n then 0 else i + 1
  }

  function Fire(ids: seq<nat>, active: nat): Fired
    requires ids != [] && (active == 0 || active in ids)
  {
    if active == 0 then Fired(ids[0], ids[After(|ids|, 0)])
    else
      var next := ids[After(|ids|, IndexOf(ids, active))];
      Fired(next, next)
  }

  /** The active id after `k` firings. */
  function Active(ids: seq<nat>, k: nat): (a: nat)
    requires ids != []
    ensures a == 0 || a in ids
  {
    if k == 0 then 0 else Fire(ids, Active(ids, k - 1)).active
  }

  /** The core firing `k + 1` sends the interrupt to. */
  function Sent(ids: seq<nat>, k: nat): nat
    requires ids != []
  {
    Fire(ids, Active(ids, k)).target
  }

  /** The position reached after `k` steps around the cycle. */
  function Around(n: nat, k: nat): (i: nat)
    requires n > 0
    ensures i < n
  {
    if k == 0 then 0 else After(n, Around(n, k - 1))
  }

  lemma {:induction false} AroundIsMod(n: nat, k: nat)
    requires n > 0
    ensures Around(n, k) == k % n
  {
    if k > 0 {
      AroundIsMod(n, k - 1);
      ModNext(n, k - 1);
    } else {
      ModUnique(n, 0, 0);
    }
  }

  lemma MulMonotonic(n: int, a: int, b: int)
    requires n >= 0 && a <= b
    ensures n * a <= n * b
  {
  }

  lemma MulLarge(n: int, d: int)
    requires n >= 0 && d != 0
    ensures n * d >= n || n * d <= -n
  {
    if d > 0 {
      MulMonotonic(n, 1, d);
    } else {
      MulMonotonic(n, d, -1);
    }
  }

  lemma ModUnique(n: nat, q: nat, r: nat)
    requires r < n
    ensures (n * q + r) % n == r
  {
    var a := n * q + r;
    var d := q - a / n;
    assert n * d == a % n - r;
    if d != 0 {
      MulLarge(n, d);
    }
  }

  lemma ModNext(n: nat, k: nat)
    requires n > 0
    ensures (k + 1) % n == After(n, k % n)
  {
    var q, r := k / n, k % n;
    if r + 1 == n {
      assert k + 1 == n * (q + 1) + 0;
      ModUnique(n, q + 1, 0);
    } else {
      assert k + 1 == n * q + (r + 1);
      ModUnique(n, q, r + 1);
    }
  }

  /** With distinct non-zero ids, firing `k + 1` activates the id `k` steps around the ring,
      and from the second firing on sends the interrupt to that same core. */
  lemma {:induction false} RingPosition(ids: seq<nat>, k: nat)
    requires ids != [] && Distinct(ids) && 0 !in ids
    ensures Active(ids, k + 1) == ids[k % |ids|]
    ensures k > 0 ==> Sent(ids, k) == ids[k % |ids|]
  {
    AroundIsMod(|ids|, k);
    if k > 0 {
      RingPosition(ids, k - 1);
      AroundIsMod(|ids|, k - 1);
      assert IndexOf(ids, ids[Around(|ids|, k - 1)]) == Around(|ids|, k - 1);
    }
  }

  /** The first firing activates the first core, but sends the interrupt to the one after it. */
  lemma FirstFiring(ids: seq<nat>)
    requires ids != []
    ensures Active(ids, 1) == ids[0] && Sent(ids, 0) == ids[1 % |ids|]
  {
    assert Active(ids, 0) == 0;
    if |ids| > 1 {
      ModUnique(|ids|, 0, 1);
    }
  }

  /** Among `n` firings from firing `s + 1` on, exactly one sends to `id`. */
  ghost predicate SentOnce(ids: seq<nat>, s: nat, id: nat)
    requires ids != []
  {
    exists t :: 0 <= t < |ids| && SentLater(ids, s, t) == id
      && forall u :: 0 <= u < |ids| && u != t ==> SentLater(ids, s, u) != id
  }

  function SentLater(ids: seq<nat>, s: nat, t: nat): nat
    requires ids != []
  {
    Sent(ids, s + t)
  }

  /** From the second firing on, every `n` consecutive firings reach each core exactly once. */
  ghost predicate Fair(ids: seq<nat>)
    requires ids != []
  {
    forall s, j :: s > 0 && 0 <= j < |ids| ==> SentOnce(ids, s, ids[j])
  }

  lemma {:induction false} AroundWindow(n: nat, s: nat, t: nat)
    requires n > 0 && t < n
    ensures Around(n, s + t) == if Around(n, s) + t < n then Around(n, s) + t else Around(n, s) + t - n
  {
    if t > 0 {
      AroundWindow(n, s, t - 1);
    }
  }

  /** The position `t` steps after `i`, for less than one turn. */
  function Turn(n: nat, i: nat, t: nat): nat
    requires i < n && t < n
  {
    if i + t < n then i + t else i + t - n
  }

  lemma SentAtTurn(ids: seq<nat>, s: nat, t: nat)
    requires ids != [] && Distinct(ids) && 0 !in ids && s > 0 && t < |ids|
    ensures SentLater(ids, s, t) == ids[Turn(|ids|, Around(|ids|, s), t)]
  {
    RingPosition(ids, s + t);
    AroundIsMod(|ids|, s + t);
    AroundWindow(|ids|, s, t);
  }

  lemma FairWithoutZero(ids: seq<nat>, s: nat, j: nat)
    requires ids != [] && Distinct(ids) && 0 !in ids && s > 0 && j < |ids|
    ensures SentOnce(ids, s, ids[j])
  {
    hide SentLater, Around, IndexOf;
    var n, i := |ids|, Around(|ids|, s);
    var t := if j >= i then j - i else j - i + n;
    SentAtTurn(ids, s, t);
    forall u | 0 <= u < n && u != t
      ensures SentLater(ids, s, u) != ids[j]
    {
      SentAtTurn(ids, s, u);
      assert Turn(n, i, u) != j;
    }
  }

  /** The round is at its start or below the place of id zero. */
  ghost predicate Below(ids: seq<nat>, z: nat, active: nat) {
    active == 0 || exists i :: 0 <= i < z && i < |ids| && active == ids[i]
  }

  lemma FireBelow(ids: seq<nat>, z: nat, active: nat)
    requires Distinct(ids) && z < |ids| && ids[z] == 0 && |ids| > 1 && Below(ids, z, active)
    ensures (active == 0 || active in ids) && Below(ids, z, Fire(ids, active).active)
    ensures Fire(ids, active).target != ids[0]
  {
    if active != 0 {
      var i :| 0 <= i < z && active == ids[i];
      assert IndexOf(ids, active) == i;
    }
  }

  /** If id zero is in the list, the round starts over when it reaches it, and never gets past it. */
  lemma {:induction false} ZeroRestarts(ids: seq<nat>, z: nat, k: nat)
    requires Distinct(ids) && z < |ids| && ids[z] == 0 && |ids| > 1
    ensures Below(ids, z, Active(ids, k)) && Sent(ids, k) != ids[0]
  {
    hide Fire, Below;
    if k > 0 {
      ZeroRestarts(ids, z, k - 1);
      FireBelow(ids, z, Active(ids, k - 1));
    } else {
      StartBelow(ids, z);
    }
    FireBelow(ids, z, Active(ids, k));
  }

  lemma StartBelow(ids: seq<nat>, z: nat)
    ensures Below(ids, z, 0)
  {
  }

  /** The round is fair exactly when no core has id zero, or there is only one core. */
  lemma FairIff(ids: seq<nat>)
    requires ids != [] && Distinct(ids)
    ensures Fair(ids) <==> 0 !in ids || |ids| == 1
  {
    if 0 !in ids {
      forall s, j | s > 0 && 0 <= j < |ids|
        ensures SentOnce(ids, s, ids[j])
      {
        FairWithoutZero(ids, s, j);
      }
    } else if |ids| == 1 {
      forall s, j | s > 0 && 0 <= j < |ids|
        ensures SentOnce(ids, s, ids[j])
      {
        assert SentLater(ids, s, 0) == ids[0];
      }
    } else {
      var z :| 0 <= z < |ids| && ids[z] == 0;
      forall t | 0 <= t < |ids|
        ensures SentLater(ids, 1, t) != ids[0]
      {
        ZeroRestarts(ids, z, 1 + t);
      }
      assert !SentOnce(ids, 1, ids[0]);
    }
  }

  class Scheduler {
    const ids: seq<nat>
    var active: nat

    ghost predicate Valid()
      reads this
    {
      ids != [] && (active == 0 || active in ids)
    }

    constructor (ids: seq<nat>)
      requires ids != []
      ensures Valid() && this.ids == ids && active == 0
    {
      this.ids, active := ids, 0;
    }

    /** The search runs on an endless cycle of the ids; since the active id is one of them it ends within one turn. */
    method TaskSched() returns (target: nat)
      requires Valid()
      modifies this
      ensures Valid() && Fired(active, target) == Fire(ids, old(active))
    {
      if active == 0 {
        active := ids[0];
        target := ids[if 1 < |ids| then 1 else 0];
      } else {
        var i := 0;
        while ids[i] != active
          invariant i < |ids| && forall j :: 0 <= j < i ==> ids[j] != active
          decreases |ids| - i
        {
          i := i + 1;
        }
        var next := if i + 1 == |ids| then 0 else i + 1;
        active := ids[next];
        target := active;
      }
    }
  }
}
