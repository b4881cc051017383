/** Server reactions as both probes compare them, and their reproducibility. */
module Reactions {
  import opened Bytes
  import opened Wrappers
  import opened Network

  datatype Kind = Alert | Data | HandshakeContinued | Closed | Reset | Timeout | Error

  datatype Reaction = Reaction(kind: Kind, alertLevel: byte, alertDesc: byte)

  /** Same kind and, for alerts, the same tag. */
  predicate Same(a: Reaction, b: Reaction) {
    a.kind == b.kind && (a.kind == Alert ==> a.alertLevel == b.alertLevel && a.alertDesc == b.alertDesc)
  }

  function OfEnding(ending: Ending): Reaction {
    match ending
    case TimedOut => Reaction(Timeout, 0, 0)
    case ConnectionReset => Reaction(Reset, 0, 0)
    case ConnectionClosed => Reaction(Closed, 0, 0)
    case OtherError => Reaction(Error, 0, 0)
  }

  /** Endings are kept apart, and are taken for neither an alert nor data. */
  lemma EndingsApart(a: Ending, b: Ending)
    ensures Same(OfEnding(a), OfEnding(b)) <==> a == b
    ensures OfEnding(a).kind !in {Alert, Data, HandshakeContinued}
    ensures OfEnding(TimedOut).kind == Timeout && OfEnding(ConnectionReset).kind == Reset
    ensures OfEnding(ConnectionClosed).kind == Closed
  {
  }

  /** The reaction on connection i to vector v, for every v and i; None when the exchange failed. */
  type Table<!V> = (V, nat) -> Option<Reaction>

  /** The exchanges first .. first + n - 1 all succeed and agree with r. */
  predicate Agree<V>(x: Table<V>, v: V, first: nat, n: nat, r: Reaction) {
    forall i :: first <= i < first + n ==> x(v, i).Some? && Same(x(v, i).value, r)
  }

  predicate Reproducible<V>(x: Table<V>, v: V, first: nat, reps: nat) {
    x(v, first).Some? && Agree(x, v, first, reps, x(v, first).value)
  }

  /** One more repetition either agrees too or settles that the vector is not reproducible. */
  lemma AgreeStep<V>(x: Table<V>, v: V, first: nat, n: nat, reps: nat, r: Reaction)
    requires n < reps && x(v, first) == Some(r) && Agree(x, v, first, n, r)
    ensures if x(v, first + n).Some? && Same(x(v, first + n).value, r) then Agree(x, v, first, n + 1, r)
            else !Reproducible(x, v, first, reps)
  {
  }

  /** The reproducible reaction to a vector. */
  function Stable<V>(x: Table<V>, v: V, first: nat, reps: nat): Option<Reaction> {
    if Reproducible(x, v, first, reps) then x(v, first) else None
  }

  lemma StableTwice<V>(x: Table<V>, v: V, first: nat)
    ensures Stable(x, v, first, 2).Some? <==>
            x(v, first).Some? && x(v, first + 1).Some? && Same(x(v, first + 1).value, x(v, first).value)
    ensures Stable(x, v, first, 2).Some? ==> Stable(x, v, first, 2) == x(v, first)
  {
    if x(v, first).Some? && x(v, first + 1).Some? && Same(x(v, first + 1).value, x(v, first).value) {
      assert Agree(x, v, first, 2, x(v, first).value);
    }
  }
}
