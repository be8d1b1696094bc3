/**
 The failure taxonomy of the screen locker (src/error.rs): the closed `Error`
 union, the two payload-free kind enums `Locker` and `Grab`, the `From`
 conversions that lift each cause into `Error`, the diagnostic `description`
 of every variant, and the `Display` rendering that writes exactly that text.

 The model is the build with the `dbus` feature enabled, which is the larger of
 the two: the build without it is the same union minus the `DBus` arm, its
 conversion and its description row.
 */
module Errors {
  import opened Wrappers

  /** The host platform's I/O failure (`std::io::Error`). A foreign type: only
      its own description is observed, through `Describers.io`. */
  type IoError(!new)

  /** The session-bus library's failure (`dbus::Error`). A foreign type: only
      its own description is observed, through `Describers.bus`. */
  type BusError(!new)

  /** The `description()` of each foreign cause type. These are functions the
      model cannot see into, so every rendering takes them as a parameter. */
  datatype Describers = Describers(io: IoError -> string, bus: BusError -> string)

  /** Why acquiring the display, a visual, an input method or an input context failed. */
  datatype Locker = Display | Visual | IM | IC

  /** Why an input grab failed. */
  datatype Grab = Conflict | Frozen | Unmapped

  /** Something failed while acquiring or using a resource. Each value carries exactly one cause. */
  datatype Error =
    | Io(io: IoError)
    | Locker(locker: Locker)
    | Grab(grab: Grab)
    | DBus(bus: BusError)
    | Parse
  {
    /** True of the variants whose message is fixed by the variant alone:
        those that wrap no foreign cause. */
    predicate IsFixed() {
      Locker? || Grab? || Parse?
    }
  }

  /* Inspection of an error's cause, as a caller's `match` on the variant does it. */

  function IoCause(e: Error): Option<IoError> {
    if e.Io? then Some(e.io) else None
  }

  function LockerKind(e: Error): Option<Locker> {
    if e.Locker? then Some(e.locker) else None
  }

  function GrabKind(e: Error): Option<Grab> {
    if e.Grab? then Some(e.grab) else None
  }

  function BusCause(e: Error): Option<BusError> {
    if e.DBus? then Some(e.bus) else None
  }

  /* The `From` conversions. Each one is total, and the cause stays inspectable afterwards. */

  /** `From<io::Error>`: wraps the I/O failure unchanged. */
  function FromIo(value: IoError): (r: Error)
    ensures IoCause(r) == Some(value)
    ensures LockerKind(r).None? && GrabKind(r).None? && BusCause(r).None?
  {
    Io(value)
  }

  /** `From<Locker>`: lifts a locker kind into the taxonomy. */
  function FromLocker(value: Locker): (r: Error)
    ensures LockerKind(r) == Some(value)
    ensures IoCause(r).None? && GrabKind(r).None? && BusCause(r).None?
  {
    Locker(value)
  }

  /** `From<Grab>`: lifts a grab kind into the taxonomy. */
  function FromGrab(value: Grab): (r: Error)
    ensures GrabKind(r) == Some(value)
    ensures IoCause(r).None? && LockerKind(r).None? && BusCause(r).None?
  {
    Grab(value)
  }

  /** `From<dbus::Error>` (only with the `dbus` feature): wraps the bus failure unchanged. */
  function FromBus(value: BusError): (r: Error)
    ensures BusCause(r) == Some(value)
    ensures IoCause(r).None? && LockerKind(r).None? && GrabKind(r).None?
  {
    DBus(value)
  }

  /* Diagnostic text. */

  /** The message of an error whose variant alone fixes it. */
  function FixedDescription(e: Error): (r: string)
    requires e.IsFixed()
    ensures |r| > 0
  {
    match e
    case Locker(k) => (
      match k
      case Display => "No display found."
      case Visual => "No proper visual found."
      case IM => "No proper IM found."
      case IC => "No proper IC found"
    )
    case Grab(k) => (
      match k
      case Conflict => "A grab is already present."
      case Frozen => "The grab is frozen."
      case Unmapped => "The grabbing window is not mapped."
    )
    case Parse => "Parse error."
  }

  /** `error::Error::description`: total over every variant. Wrapped foreign
      causes answer with their own description; every other variant with its
      fixed message. */
  function Description(e: Error, d: Describers): (r: string)
    ensures e.IsFixed() ==> |r| > 0
  {
    match e
    case Io(x) => d.io(x)
    case DBus(x) => d.bus(x)
    case _ => FixedDescription(e)
  }

  /** `fmt::Display::fmt`: writes the description into the formatter, whose
      output so far is `sink`, and nothing else. */
  function Fmt(e: Error, d: Describers, sink: string): (r: string)
    ensures |r| == |sink| + |Description(e, d)|
    ensures r[..|sink|] == sink
    ensures r[|sink|..] == Description(e, d)
  {
    sink + Description(e, d)
  }
}
