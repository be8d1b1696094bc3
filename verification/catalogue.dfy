/**
 The fixed diagnostic messages as a catalogue, and their inverse: a message
 names exactly one payload-free variant. The variant can be recovered from its
 message because the eight fixed messages are pairwise distinct, which is what
 lets a reader of the diagnostic tell the failures apart.
 */
module Catalogue {
  import opened Wrappers
  import opened Errors

  /** Every error whose message is fixed by its variant, in declaration order. */
  const FixedErrors: seq<Error> := [
    Locker(Display), Locker(Visual), Locker(IM), Locker(IC),
    Grab(Conflict), Grab(Frozen), Grab(Unmapped),
    Parse
  ]

  /** The catalogue lists the fixed variants and nothing else. */
  lemma FixedErrorsComplete(e: Error)
    ensures e in FixedErrors <==> e.IsFixed()
  {
    match e
    case Locker(k) =>
      match k {
        case Display => assert e == FixedErrors[0];
        case Visual => assert e == FixedErrors[1];
        case IM => assert e == FixedErrors[2];
        case IC => assert e == FixedErrors[3];
      }
    case Grab(k) =>
      match k {
        case Conflict => assert e == FixedErrors[4];
        case Frozen => assert e == FixedErrors[5];
        case Unmapped => assert e == FixedErrors[6];
      }
    case Parse => assert e == FixedErrors[7];
    case _ =>
  }

  /** The first entry of `table` whose message is `s`, if there is one. */
  function Find(table: seq<Error>, s: string): (r: Option<Error>)
    requires forall e :: e in table ==> e.IsFixed()
    ensures r.Some? ==> r.value in table && FixedDescription(r.value) == s
    ensures r.None? <==> forall e :: e in table ==> FixedDescription(e) != s
  {
    if |table| == 0 then None
    else if FixedDescription(table[0]) == s then Some(table[0])
    else Find(table[1..], s)
  }

  /** The payload-free variant whose message is `s`; `None` when `s` is no fixed message. */
  function Classify(s: string): (r: Option<Error>)
    ensures r.Some? ==> r.value.IsFixed() && FixedDescription(r.value) == s
    ensures r.None? <==> forall e: Error :: e.IsFixed() ==> FixedDescription(e) != s
  {
    forall e: Error | e.IsFixed() ensures e in FixedErrors {
      FixedErrorsComplete(e);
    }
    forall e | e in FixedErrors ensures e.IsFixed() {
      FixedErrorsComplete(e);
    }
    Find(FixedErrors, s)
  }

  /** Two payload-free errors have the same message only when they are the same
      error: the eight fixed messages are pairwise distinct. */
  lemma FixedDescriptionInjective(a: Error, b: Error)
    requires a.IsFixed() && b.IsFixed()
    ensures FixedDescription(a) == FixedDescription(b) <==> a == b
  {
  }

  /** `Classify` inverts the fixed messages, in both directions: it yields `e`
      from `s` exactly when `e` is a payload-free error whose message is `s`. */
  lemma ClassifyInverse(s: string, e: Error)
    ensures Classify(s) == Some(e) <==> e.IsFixed() && FixedDescription(e) == s
  {
    if e.IsFixed() && FixedDescription(e) == s {
      var r := Classify(s);
      assert r.Some?;
      FixedDescriptionInjective(r.value, e);
    }
  }
}
