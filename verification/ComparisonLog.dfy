/** What the main sort has been charged with: a log of the comparisons mainGtU has made. */
module ComparisonLog {
  import opened Numbers
  import opened Rotations
  import opened MainOrder

  /** A comparison of the rows p and q, and the rounds of eight places it was charged with. */
  datatype Comparison = Comparison(p: nat, q: nat, rounds: nat)

  /** Only different rows are compared, and only those that agree on 20 bytes and more are charged for. */
  ghost predicate Paid(b: seq<byte>, c: Comparison) {
    && c.p < |b| && c.q < |b| && c.p != c.q && 8 * c.rounds <= |b| + 16
    && (c.rounds > 0 ==> Agree(b, c.p, c.q, 12 + 8 * c.rounds))
  }

  ghost function Rounds(log: seq<Comparison>): nat {
    if log == [] then 0 else Rounds(log[..|log| - 1]) + log[|log| - 1].rounds
  }

  /** The budget has been charged with the rounds of these comparisons and with nothing else. */
  ghost predicate Charged(b: seq<byte>, budget: int, left: int, log: seq<Comparison>) {
    left == budget - Rounds(log) && forall k :: 0 <= k < |log| ==> Paid(b, log[k])
  }

  /** No two rotations begin with the same h bytes. */
  ghost predicate DifferWithin(b: seq<byte>, h: nat) {
    b != [] && forall p, q :: 0 <= p < |b| && 0 <= q < |b| && p != q ==> !Agree(b, p, q, h)
  }

  lemma NothingCharged(b: seq<byte>, budget: int)
    ensures Charged(b, budget, budget, [])
  {
  }

  lemma ChargedOnce(b: seq<byte>, budget: int, left: int, log: seq<Comparison>, c: Comparison)
    requires Charged(b, budget, left, log) && Paid(b, c)
    ensures Charged(b, budget, left - c.rounds, log + [c])
  {
    hide Paid;
    assert (log + [c])[..|log|] == log;
  }

  lemma {:induction false} ChargedTwice(b: seq<byte>, budget: int, between: int, left: int, log: seq<Comparison>, more: seq<Comparison>)
    requires Charged(b, budget, between, log) && Charged(b, between, left, more)
    ensures Charged(b, budget, left, log + more)
    decreases |more|
  {
    hide Paid;
    if more == [] {
      assert log + more == log;
    } else {
      var front, c := more[..|more| - 1], more[|more| - 1];
      assert forall k :: 0 <= k < |front| ==> front[k] == more[k];
      ChargedTwice(b, budget, between, left + c.rounds, log, front);
      ChargedOnce(b, budget, left + c.rounds, log + front, c);
      assert log + front + [c] == log + more;
    }
  }

  ghost predicate Between(c: Comparison, p: int, q: int) {
    (c.p == p && c.q == q) || (c.p == q && c.q == p)
  }

  /** How often the rows p and q have been compared. */
  ghost function Times(log: seq<Comparison>, p: int, q: int): nat {
    if log == [] then 0 else Times(log[..|log| - 1], p, q) + if Between(log[|log| - 1], p, q) then 1 else 0
  }

  ghost predicate AtMost(log: seq<Comparison>, t: nat) {
    forall p, q :: Times(log, p, q) <= t
  }

  /** Only these rows have been compared. */
  ghost predicate Among(log: seq<Comparison>, rows: seq<int>) {
    forall k :: 0 <= k < |log| ==> log[k].p in rows && log[k].q in rows
  }

  lemma OneMore(log: seq<Comparison>, c: Comparison, p: int, q: int)
    ensures Times(log + [c], p, q) == Times(log, p, q) + if Between(c, p, q) then 1 else 0
  {
    assert (log + [c])[..|log|] == log;
  }

  lemma {:induction false} TimesSwap(log: seq<Comparison>, p: int, q: int)
    ensures Times(log, p, q) == Times(log, q, p)
    decreases |log|
  {
    if log != [] {
      TimesSwap(log[..|log| - 1], p, q);
    }
  }

  lemma {:induction false} TimesTwice(log: seq<Comparison>, more: seq<Comparison>, p: int, q: int)
    ensures Times(log + more, p, q) == Times(log, p, q) + Times(more, p, q)
    decreases |more|
  {
    hide Between;
    if more == [] {
      assert log + more == log;
    } else {
      var front := more[..|more| - 1];
      TimesTwice(log, front, p, q);
      assert (log + more)[..|log + more| - 1] == log + front;
    }
  }

  /** Rows that have been compared stand in the log. */
  lemma {:induction false} Found(log: seq<Comparison>, p: int, q: int) returns (k: nat)
    requires Times(log, p, q) > 0
    ensures k < |log| && Between(log[k], p, q)
    decreases |log|
  {
    k := |log| - 1;
    if !Between(log[k], p, q) {
      k := Found(log[..k], p, q);
    }
  }

  lemma NotAmong(log: seq<Comparison>, rows: seq<int>, p: int, q: int)
    requires Among(log, rows) && (p !in rows || q !in rows)
    ensures Times(log, p, q) == 0
  {
    if Times(log, p, q) > 0 {
      var k := Found(log, p, q);
    }
  }

  lemma AmongMore(log: seq<Comparison>, rows: seq<int>, rows': seq<int>)
    requires Among(log, rows) && multiset(rows) <= multiset(rows')
    ensures Among(log, rows')
  {
    forall x | x in rows ensures x in rows' {
      assert x in multiset(rows');
    }
  }

  lemma AmongBoth(log: seq<Comparison>, more: seq<Comparison>, rows: seq<int>)
    requires Among(log, rows) && Among(more, rows)
    ensures Among(log + more, rows)
  {
  }

  /** Where all rows differ within 20 bytes, nothing is charged. */
  lemma {:induction false} NeverCharged(b: seq<byte>, budget: int, left: int, log: seq<Comparison>)
    requires Charged(b, budget, left, log) && DifferWithin(b, 20)
    ensures left == budget
    decreases |log|
  {
    hide Agree;
    if log != [] {
      var front, c := log[..|log| - 1], log[|log| - 1];
      assert forall k :: 0 <= k < |front| ==> front[k] == log[k];
      NeverCharged(b, budget, left + c.rounds, front);
      if c.rounds > 0 {
        AgreeLess(b, c.p, c.q, 12 + 8 * c.rounds, 20);
      }
    }
  }

  /** Rows that share d bytes, compared d bytes further on. */
  lemma PaidShared(b: seq<byte>, p: nat, q: nat, d: nat, rounds: nat)
    requires p < |b| && q < |b| && p != q && Window(b, p, d) == Window(b, q, d) && 8 * rounds <= |b| + 16
    requires rounds > 0 ==> Agree(b, p + d, q + d, 12 + 8 * rounds)
    ensures Paid(b, Comparison(p, q, rounds))
  {
    hide At;
    if rounds > 0 {
      LongerAgree(b, p, q, d, 12 + 8 * rounds);
      AgreeLess(b, p, q, d + (12 + 8 * rounds), 12 + 8 * rounds);
    }
  }

  lemma LongerAgree(b: seq<byte>, p: nat, q: nat, d: nat, t: nat)
    requires b != [] && Window(b, p, d) == Window(b, q, d) && Agree(b, p + d, q + d, t)
    ensures Agree(b, p, q, d + t)
  {
    hide At;
    WindowSplit(b, p, d, t);
    WindowSplit(b, q, d, t);
  }
}
