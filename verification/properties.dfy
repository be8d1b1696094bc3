/**
 What the taxonomy promises its callers: the exact text of every fixed
 message, delegation to the wrapped cause's own description, lossless and
 injective conversions, and a `Display` rendering that is the description and
 nothing more.
 */
module ErrorProperties {
  import opened Wrappers
  import opened Errors
  import Catalogue

  /* Exact text, through conversion and rendering, byte for byte. */

  lemma LockerMessages(d: Describers)
    ensures Fmt(FromLocker(Display), d, "") == "No display found."
    ensures Fmt(FromLocker(Visual), d, "") == "No proper visual found."
    ensures Fmt(FromLocker(IM), d, "") == "No proper IM found."
    ensures Fmt(FromLocker(IC), d, "") == "No proper IC found"
  {
  }

  lemma GrabMessages(d: Describers)
    ensures Fmt(FromGrab(Conflict), d, "") == "A grab is already present."
    ensures Fmt(FromGrab(Frozen), d, "") == "The grab is frozen."
    ensures Fmt(FromGrab(Unmapped), d, "") == "The grabbing window is not mapped."
  {
  }

  lemma ParseMessage(d: Describers)
    ensures Fmt(Parse, d, "") == "Parse error."
  {
  }

  /* Wrapped causes speak for themselves. */

  /** An I/O failure, once converted, renders as exactly its own description. */
  lemma IoDelegates(x: IoError, d: Describers)
    ensures Description(FromIo(x), d) == d.io(x)
    ensures Fmt(FromIo(x), d, "") == d.io(x)
  {
  }

  /** A bus failure, once converted, renders as exactly its own description. */
  lemma BusDelegates(x: BusError, d: Describers)
    ensures Description(FromBus(x), d) == d.bus(x)
    ensures Fmt(FromBus(x), d, "") == d.bus(x)
  {
  }

  /** The variant alone determines the message of a payload-free error: no
      foreign description is consulted. */
  lemma FixedIgnoresDescribers(e: Error, d1: Describers, d2: Describers)
    requires e.IsFixed()
    ensures Description(e, d1) == Description(e, d2) == FixedDescription(e)
  {
  }

  /* Conversions are lossless and keep the categories apart. */

  /** The conversions are the exact inverses of inspecting the cause: an error
      carries cause `x` of a category precisely when it was converted from `x`. */
  lemma ConversionsInvertInspection(e: Error, x: IoError, b: BusError, k: Locker, g: Grab)
    ensures IoCause(e) == Some(x) <==> e == FromIo(x)
    ensures BusCause(e) == Some(b) <==> e == FromBus(b)
    ensures LockerKind(e) == Some(k) <==> e == FromLocker(k)
    ensures GrabKind(e) == Some(g) <==> e == FromGrab(g)
  {
  }

  /** Distinct causes give distinct errors, within each category. */
  lemma ConversionsInjective(x1: IoError, x2: IoError, b1: BusError, b2: BusError,
                             k1: Locker, k2: Locker, g1: Grab, g2: Grab)
    ensures FromIo(x1) == FromIo(x2) <==> x1 == x2
    ensures FromBus(b1) == FromBus(b2) <==> b1 == b2
    ensures FromLocker(k1) == FromLocker(k2) <==> k1 == k2
    ensures FromGrab(g1) == FromGrab(g2) <==> g1 == g2
  {
  }

  /** Errors converted from different categories are never equal, and none of them is `Parse`. */
  lemma ConversionsDisjoint(x: IoError, b: BusError, k: Locker, g: Grab)
    ensures FromIo(x) != FromBus(b) && FromIo(x) != FromLocker(k) && FromIo(x) != FromGrab(g)
    ensures FromBus(b) != FromLocker(k) && FromBus(b) != FromGrab(g)
    ensures FromLocker(k) != FromGrab(g)
    ensures Parse !in {FromIo(x), FromBus(b), FromLocker(k), FromGrab(g)}
  {
  }

  /* Display. */

  /** The rendered text of a payload-free error is non-empty and names that
      error alone: whichever foreign descriptions are in play, reading the
      variant back from the text recovers it. */
  lemma DisplayIdentifiesFixed(e: Error, d: Describers)
    requires e.IsFixed()
    ensures |Fmt(e, d, "")| > 0
    ensures Catalogue.Classify(Fmt(e, d, "")) == Some(e)
  {
    Catalogue.ClassifyInverse(FixedDescription(e), e);
  }
}
