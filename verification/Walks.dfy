/** Walking from name to name by a partial step, and when such a walk stops. */
module Walks {
  import opened Wrappers

  type Step = string -> Option<string>

  /** Where the walk is after k steps, None once it has stopped. */
  function Walked(next: Step, start: string, k: nat): Option<string> {
    if k == 0 then Some(start)
    else
      match Walked(next, start, k - 1)
      case None => None
      case Some(n) => next(n)
  }

  /** Walking with a memory of the names passed: the walk stops unless it comes to one of them. */
  predicate Stops(next: Step, domain: set<string>, at: string, passed: set<string>)
    requires forall n :: next(n).Some? ==> n in domain
    decreases domain - passed
  {
    next(at).None? || (at !in passed && Stops(next, domain, next(at).value, passed + {at}))
  }

  lemma {:induction false} WalkedFromNext(next: Step, start: string, k: nat)
    requires next(start).Some?
    ensures Walked(next, start, k + 1) == Walked(next, next(start).value, k)
  {
    if k > 0 {
      WalkedFromNext(next, start, k - 1);
    }
  }

  lemma {:induction false} EarlierStepsExist(next: Step, start: string, j: nat, k: nat)
    requires j <= k && Walked(next, start, k).Some?
    ensures Walked(next, start, j).Some?
  {
    if j < k {
      EarlierStepsExist(next, start, j, k - 1);
    }
  }

  lemma {:induction false} StoppedWalkHasEnd(next: Step, domain: set<string>, at: string, passed: set<string>)
      returns (k: nat)
    requires forall n :: next(n).Some? ==> n in domain
    requires Stops(next, domain, at, passed)
    ensures Walked(next, at, k).None?
    decreases domain - passed
  {
    if next(at).None? {
      k := 1;
      assert Walked(next, at, 0) == Some(at);
    } else {
      var j := StoppedWalkHasEnd(next, domain, next(at).value, passed + {at});
      WalkedFromNext(next, at, j);
      k := j + 1;
    }
  }

  ghost predicate PassedBefore(next: Step, start: string, now: nat, n: string) {
    exists k: nat :: k < now && Walked(next, start, k) == Some(n)
  }

  lemma {:induction false} UnstoppedWalkRepeats(next: Step, domain: set<string>, start: string, now: nat,
      passed: set<string>)
      returns (i: nat, j: nat)
    requires forall n :: next(n).Some? ==> n in domain
    requires Walked(next, start, now).Some?
    requires forall n :: n in passed ==> PassedBefore(next, start, now, n)
    requires !Stops(next, domain, Walked(next, start, now).value, passed)
    ensures i < j && Walked(next, start, i) == Walked(next, start, j) && Walked(next, start, j).Some?
    decreases domain - passed
  {
    var at := Walked(next, start, now).value;
    if at in passed {
      j := now;
      i :| i < now && Walked(next, start, i) == Some(at);
    } else {
      forall n | n in passed + {at} ensures PassedBefore(next, start, now + 1, n) {
        if n in passed {
          var k: nat :| k < now && Walked(next, start, k) == Some(n);
          assert k < now + 1;
        }
      }
      i, j := UnstoppedWalkRepeats(next, domain, start, now + 1, passed + {at});
    }
  }

  lemma {:induction false} RepeatedWalkAgrees(next: Step, start: string, i: nat, j: nat, k: nat)
    requires Walked(next, start, i) == Walked(next, start, j)
    ensures Walked(next, start, i + k) == Walked(next, start, j + k)
  {
    if k > 0 {
      RepeatedWalkAgrees(next, start, i, j, k - 1);
    }
  }

  lemma {:induction false} RepeatedWalkGoesOn(next: Step, start: string, i: nat, j: nat, k: nat)
    requires i < j && Walked(next, start, i) == Walked(next, start, j) && Walked(next, start, j).Some?
    ensures Walked(next, start, k).Some?
  {
    if k <= j {
      EarlierStepsExist(next, start, k, j);
    } else {
      RepeatedWalkGoesOn(next, start, i, j, i + (k - j));
      RepeatedWalkAgrees(next, start, i, j, k - j);
    }
  }

  /** A walk with memory stops exactly when the plain walk does. */
  lemma StopsIffSomeStepIsMissing(next: Step, domain: set<string>, start: string)
    requires forall n :: next(n).Some? ==> n in domain
    ensures Stops(next, domain, start, {}) <==> exists k: nat :: Walked(next, start, k).None?
  {
    if Stops(next, domain, start, {}) {
      var k := StoppedWalkHasEnd(next, domain, start, {});
    } else {
      var i, j := UnstoppedWalkRepeats(next, domain, start, 0, {});
      forall k: nat ensures Walked(next, start, k).Some? {
        RepeatedWalkGoesOn(next, start, i, j, k);
      }
    }
  }
}
