/** The connection registry `Hub.Clients` as a value: a map from user id to
    the client registered for it, the two updates the hub's event loop makes
    to it, and the effect of one message fan-out (which deletes every
    recipient whose write fails). */
module Registry {
  import opened ChatTypes

  type Clients = map<int, Client>

  /** Every entry is stored under the id of the client it holds. */
  predicate KeyedById(m: Clients) {
    forall k :: k in m ==> m[k].id == k
  }

  /** The Register arm: the entry for the client's id is overwritten. */
  function Registered(m: Clients, c: Client): (r: Clients)
    ensures c.id in r && r[c.id] == c
    ensures forall k :: k != c.id ==> (k in r <==> k in m)
    ensures forall k :: k != c.id && k in m ==> r[k] == m[k]
    ensures |r| == if c.id in m then |m| else |m| + 1
    ensures KeyedById(m) ==> KeyedById(r)
  {
    var r := m[c.id := c];
    assert r.Keys == m.Keys + {c.id};
    r
  }

  /** The Unregister arm: the entry for the client's id is deleted if there
      is one, whatever client it holds. */
  function Unregistered(m: Clients, c: Client): (r: Clients)
    ensures c.id !in r
    ensures forall k :: k != c.id ==> (k in r <==> k in m)
    ensures forall k :: k in r ==> r[k] == m[k]
    ensures c.id !in m ==> r == m
    ensures KeyedById(m) ==> KeyedById(r)
  {
    if c.id in m then m - {c.id} else m
  }

  /** One iteration of the recipient loop: a registered recipient whose
      write fails is deleted. */
  function FanOutStep(m: Clients, uid: int, failing: set<int>): (r: Clients)
    ensures r.Keys == if uid in failing then m.Keys - {uid} else m.Keys
    ensures forall k :: k in r ==> r[k] == m[k]
  {
    if uid in m && uid in failing then m - {uid} else m
  }

  /** The registry after the recipient loop has walked `rs` in order. */
  function AfterFanOut(m: Clients, rs: seq<int>, failing: set<int>): (r: Clients)
    ensures forall k :: k in r ==> k in m && r[k] == m[k]
    ensures forall k :: k in m && k !in failing ==> k in r
    decreases |rs|
  {
    if rs == [] then m
    else FanOutStep(AfterFanOut(m, rs[..|rs| - 1], failing), rs[|rs| - 1], failing)
  }

  /** The recipients, in order, that the loop writes to: those still
      registered when the loop reaches them. */
  function Attempted(m: Clients, rs: seq<int>, failing: set<int>): (r: seq<int>)
    ensures |r| <= |rs|
    ensures forall i :: 0 <= i < |r| ==> r[i] in m && r[i] in rs
    decreases |rs|
  {
    if rs == [] then []
    else
      var before := AfterFanOut(m, rs[..|rs| - 1], failing);
      Attempted(m, rs[..|rs| - 1], failing)
        + (if rs[|rs| - 1] in before then [rs[|rs| - 1]] else [])
  }

  /** The recipients of `rs`, in order, that `m` registers. */
  function KeepRegistered(m: Clients, rs: seq<int>): seq<int>
    decreases |rs|
  {
    if rs == [] then []
    else
      KeepRegistered(m, rs[..|rs| - 1])
        + (if rs[|rs| - 1] in m then [rs[|rs| - 1]] else [])
  }

  /** The ids the fan-out deletes: recipients that are also failing. */
  function FailedRecipients(rs: seq<int>, failing: set<int>): set<int> {
    set x | x in rs && x in failing
  }

  /** After fan-out, exactly the failed recipients are gone and every other
      entry is as it was. */
  lemma {:induction false} AfterFanOutClosedForm(m: Clients, rs: seq<int>, failing: set<int>)
    ensures AfterFanOut(m, rs, failing) == m - FailedRecipients(rs, failing)
    decreases |rs|
  {
    if rs == [] {
      assert FailedRecipients(rs, failing) == {};
      assert m - {} == m;
    } else {
      var init, last := rs[..|rs| - 1], rs[|rs| - 1];
      AfterFanOutClosedForm(m, init, failing);
      assert rs == init + [last];
      var before := m - FailedRecipients(init, failing);
      var after := AfterFanOut(m, rs, failing);
      assert after == FanOutStep(before, last, failing);
      var s := FailedRecipients(rs, failing);
      assert s == FailedRecipients(init, failing) + (if last in failing then {last} else {}) by {
        forall x ensures x in s <==> x in FailedRecipients(init, failing) || (x == last && last in failing) {
          assert x in rs <==> x in init || x == last;
        }
      }
      assert after.Keys == (m - s).Keys;
      assert forall k :: k in after ==> after[k] == m[k];
    }
  }

  /** A recipient is written to at some point iff it was registered when
      the message arrived and is among the recipients. */
  lemma {:induction false} AttemptedMembership(m: Clients, rs: seq<int>, failing: set<int>, x: int)
    ensures x in Attempted(m, rs, failing) <==> x in m && x in rs
    decreases |rs|
  {
    if rs != [] {
      var init, last := rs[..|rs| - 1], rs[|rs| - 1];
      assert rs == init + [last];
      AttemptedMembership(m, init, failing, x);
      AfterFanOutClosedForm(m, init, failing);
      assert x in rs <==> x in init || x == last;
    }
  }

  /** With no repeated recipient, the loop writes to exactly the registered
      recipients, in recipient order. */
  lemma {:induction false} AttemptedWithoutDuplicates(m: Clients, rs: seq<int>, failing: set<int>)
    requires NoDuplicates(rs)
    ensures Attempted(m, rs, failing) == KeepRegistered(m, rs)
    decreases |rs|
  {
    if rs != [] {
      var init, last := rs[..|rs| - 1], rs[|rs| - 1];
      assert NoDuplicates(init);
      AttemptedWithoutDuplicates(m, init, failing);
      AfterFanOutClosedForm(m, init, failing);
      assert last !in init;
    }
  }

  /** A recipient whose write fails is written to at most once, even if it
      is listed several times: its first failure unregisters it. */
  lemma {:induction false} FailingAttemptedAtMostOnce(m: Clients, rs: seq<int>, failing: set<int>, x: int)
    requires x in failing
    ensures multiset(Attempted(m, rs, failing))[x] <= 1
    decreases |rs|
  {
    if rs != [] {
      var init, last := rs[..|rs| - 1], rs[|rs| - 1];
      FailingAttemptedAtMostOnce(m, init, failing, x);
      AfterFanOutClosedForm(m, init, failing);
      AttemptedMembership(m, init, failing, x);
      var prev := Attempted(m, init, failing);
      if x == last && x in prev {
        assert x in init;
        assert x !in AfterFanOut(m, init, failing);
      }
    }
  }
}
