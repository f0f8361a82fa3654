/** Runs of the decoder machine over a bit string, and how they compose when the input arrives in pieces. */
module DecoderRun {
  import opened Numbers
  import opened BitStrings
  import opened CanonicalCodes
  import opened DecoderMachine

  predicate Waiting(d: DState) {
    d.state != IDLE && d.state != OUTPUT
  }

  datatype Outcome =
    | Suspended(ds: DState, rest: Bits)          // the input ran out at a GET_BITS
    | Returned(ds: DState, code: ReturnCode, rest: Bits)

  lemma NeedPositive(d: DState)
    requires Invariant(d) && Waiting(d)
    ensures Need(d) >= 1
  {
    if FirstBits(d.state) {
      MinimumPositive(d.t.len[d.s.gSel]);
    }
  }

  /** Consume fields until one is incomplete or the machine returns. */
  ghost function Run(d: DState, bits: Bits): (r: Outcome)
    requires Invariant(d) && Waiting(d)
    ensures match r
      case Suspended(e, rest) => Invariant(e) && Waiting(e) && |rest| < Need(e) && |rest| <= |bits|
      case Returned(e, code, rest) => Good(Return(e, code)) && |rest| < |bits|
    decreases |bits|
  {
    NeedPositive(d);
    var n := Need(d);
    if |bits| < n then Suspended(d, bits)
    else
      match Advance(d, FromBits(bits[..n]))
      case Next(e) => Run(e, bits[n..])
      case Return(e, code) => Returned(e, code, bits[n..])
  }

  /** Resumability: stopping where the first piece of input runs out and going on from the saved state
      ends exactly as one run over the whole input. */
  lemma {:induction false} RunResumes(d: DState, a: Bits, b: Bits)
    requires Invariant(d) && Waiting(d)
    ensures Run(d, a + b) == match Run(d, a)
      case Suspended(e, rest) => Run(e, rest + b)
      case Returned(e, code, rest) => Returned(e, code, rest + b)
    decreases |a|
  {
    NeedPositive(d);
    var n := Need(d);
    if |a| >= n {
      assert (a + b)[..n] == a[..n] && (a + b)[n..] == a[n..] + b;
      match Advance(d, FromBits(a[..n]))
      case Next(e) => RunResumes(e, a[n..], b);
      case Return(_, _) =>
    }
  }

  /** bits drive the machine from d to the step s, and s is the result of the last field. */
  ghost predicate Delivers(d: DState, bits: Bits, s: Step)
    requires Invariant(d) && Waiting(d)
    decreases |bits|
  {
    var n := Need(d);
    && 0 < n <= |bits|
    && var r := Advance(d, FromBits(bits[..n]));
       if |bits| == n then r == s else r.Next? && Delivers(r.ds, bits[n..], s)
  }

  lemma {:induction false} DeliversGood(d: DState, bits: Bits, s: Step)
    requires Invariant(d) && Waiting(d) && Delivers(d, bits, s)
    ensures Good(s) && bits != []
    decreases |bits|
  {
    var n := Need(d);
    if |bits| > n {
      DeliversGood(Advance(d, FromBits(bits[..n])).ds, bits[n..], s);
    }
  }

  lemma {:induction false} DeliversThen(d: DState, a: Bits, e: DState, b: Bits, s: Step)
    requires Invariant(d) && Waiting(d) && Delivers(d, a, Next(e))
    requires Invariant(e) && Waiting(e) && Delivers(e, b, s)
    ensures Delivers(d, a + b, s)
    decreases |a|
  {
    var n := Need(d);
    hide Advance;
    var r := Advance(d, FromBits(a[..n]));
    var c := a + b;
    assert b != [] by {
      DeliversGood(e, b, s);
    }
    assert c[..n] == a[..n];
    if |a| == n {
      assert c[n..] == b;
    } else {
      assert c[n..] == a[n..] + b;
      DeliversThen(r.ds, a[n..], e, b, s);
    }
  }

  /** One field. */
  lemma FieldDelivers(d: DState, n: nat, v: nat)
    requires Invariant(d) && Waiting(d) && Need(d) == n && v < Pow2(n)
    ensures Delivers(d, ToBits(n, v), Advance(d, v))
  {
    NeedPositive(d);
    FromToBits(n, v);
    assert ToBits(n, v)[..n] == ToBits(n, v);
  }

  /** One more field after a delivered prefix. */
  lemma ThenField(d: DState, a: Bits, e: DState, n: nat, v: nat)
    requires Invariant(d) && Waiting(d) && Delivers(d, a, Next(e))
    requires Need(e) == n && v < Pow2(n)
    ensures Invariant(e) && Waiting(e)
    ensures Delivers(d, a + ToBits(n, v), Advance(e, v))
    ensures Good(Advance(e, v))
  {
    DeliversGood(d, a, Next(e));
    FieldDelivers(e, n, v);
    DeliversThen(d, a, e, ToBits(n, v), Advance(e, v));
  }

  /** What is delivered decides the run. */
  lemma {:induction false} DeliversRun(d: DState, bits: Bits, s: Step, rest: Bits)
    requires Invariant(d) && Waiting(d) && Delivers(d, bits, s)
    ensures Good(s)
    ensures Run(d, bits + rest) == match s
      case Next(e) => Run(e, rest)
      case Return(e, code) => Returned(e, code, rest)
    decreases |bits|
  {
    hide Advance, Invariant, Need;
    var n := Need(d);
    DeliversGood(d, bits, s);
    assert (bits + rest)[..n] == bits[..n] && (bits + rest)[n..] == bits[n..] + rest;
    if |bits| == n {
      assert bits[n..] + rest == rest;
    } else {
      DeliversRun(Advance(d, FromBits(bits[..n])).ds, bits[n..], s, rest);
    }
  }
}
