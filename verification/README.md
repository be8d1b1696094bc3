# screenruster failure taxonomy, in Dafny

A model of `src/error.rs` of the screenruster screen locker: the closed `Error`
union every fallible operation of the locker returns, with its arms `Io`,
`Locker`, `Grab`, `DBus` (present with the `dbus` feature) and `Parse`; the
payload-free kinds `Locker` (`Display`, `Visual`, `IM`, `IC`) and `Grab`
(`Conflict`, `Frozen`, `Unmapped`); the `From` conversions that lift each
cause into `Error`; `error::Error::description`, which maps every variant to
its diagnostic text; and `fmt::Display`, which writes exactly that text.

Files:

- `wrappers.dfy` — `Option`, returned when a caller inspects an error for a cause it may not carry.
- `error.dfy` — module `Errors`: the datatypes, the conversions, `FixedDescription`, `Description` and `Fmt`.
- `catalogue.dfy` — module `Catalogue`: the eight payload-free errors as a table, and `Classify`, which reads a fixed message back to its variant; the round trip holds because the eight fixed messages are pairwise distinct.
- `properties.dfy` — module `ErrorProperties`: exact strings, delegation, injectivity and disjointness of the conversions, and the `Display` rendering.

`std::io::Error` and `dbus::Error` are foreign types. They are the abstract
types `IoError` and `BusError`, and their own `description()` is the pair of
total functions `Describers`, passed to every rendering. So the delegation
properties hold for every possible foreign description.

The model is the build with the `dbus` feature on. That build is the larger
one: the build without the feature is the same union minus the `DBus` arm,
`FromBus` and the `DBus` row of `Description`.

The `Locker::IC` message has no trailing period ("No proper IC found"), unlike
the other six kind messages. The model keeps the text exactly as written.

`Io` and `DBus` render as the wrapped cause's own description, which may be
empty; non-emptiness is proved only for the payload-free variants
(`Errors.Description`).

## Model

| member | source | states |
|---|---|---|
| Errors.FromIo | src/error.rs:37-41 | converting an I/O failure yields an error whose I/O cause is that same failure, and which carries no locker kind, grab kind or bus cause |
| Errors.FromLocker | src/error.rs:43-47 | converting a locker kind yields an error whose locker kind is that same kind, and which carries no other cause |
| Errors.FromGrab | src/error.rs:49-53 | converting a grab kind yields an error whose grab kind is that same kind, and which carries no other cause |
| Errors.FromBus | src/error.rs:56-61 | converting a bus failure yields an error whose bus cause is that same failure, and which carries no other cause |
| Errors.FixedDescription | src/error.rs:79-105 | every locker, grab and parse error has a non-empty message |
| Errors.Description | src/error.rs:69-107 | description is total over all five arms, and non-empty for every arm that wraps no foreign cause |
| Errors.Fmt | src/error.rs:63-67 | Display keeps what the formatter already holds and appends exactly the description, nothing more; into an empty formatter it writes exactly the description |
| Catalogue.FixedErrorsComplete | src/error.rs:11-35 | the eight-entry table holds exactly the errors that wrap no foreign cause: the four locker kinds, the three grab kinds and `Parse` |
| Catalogue.Classify | src/error.rs:79-105 | a message read back gives a payload-free error with that message, and gives nothing exactly when no payload-free error has that message |
| Catalogue.FixedDescriptionInjective | src/error.rs:79-105 | two payload-free errors share a message if and only if they are the same error, so the eight fixed messages are pairwise distinct |
| Catalogue.ClassifyInverse | src/error.rs:79-105 | reading a message back yields `e` if and only if `e` is payload-free and its message is that text |
| ErrorProperties.LockerMessages | src/error.rs:79-91 | each converted locker kind renders exactly as "No display found.", "No proper visual found.", "No proper IM found." and "No proper IC found" |
| ErrorProperties.GrabMessages | src/error.rs:93-102 | each converted grab kind renders exactly as "A grab is already present.", "The grab is frozen." and "The grabbing window is not mapped." |
| ErrorProperties.ParseMessage | src/error.rs:104-105 | `Parse` renders exactly as "Parse error." |
| ErrorProperties.IoDelegates | src/error.rs:72-73 | a converted I/O failure describes and displays as exactly its own description |
| ErrorProperties.BusDelegates | src/error.rs:75-77 | a converted bus failure describes and displays as exactly its own description |
| ErrorProperties.FixedIgnoresDescribers | src/error.rs:79-105 | for a payload-free error the message does not depend on any foreign description |
| ErrorProperties.ConversionsInvertInspection | src/error.rs:37-61 | an error carries a given cause of a category exactly when it was converted from that cause, so no conversion loses its cause |
| ErrorProperties.ConversionsInjective | src/error.rs:37-61 | within each category, distinct causes convert to distinct errors and equal causes to equal errors |
| ErrorProperties.ConversionsDisjoint | src/error.rs:11-20 | errors converted from different categories are never equal, and none of them equals `Parse` |
| ErrorProperties.DisplayIdentifiesFixed | src/error.rs:63-105 | the rendered text of a payload-free error is non-empty, and reading it back recovers that error whatever the foreign descriptions are |

## Left out

- The internals of `io::Error` and `dbus::Error`: foreign library types. They are abstract, and their descriptions are parameters.
- `#[cfg(feature = "dbus")]` selection: it happens at compile time. The model is the feature-on build.
- `fmt::Formatter` I/O and a failing `write_str`: `Fmt` is a pure function that appends to the formatter's output so far.
- The derived `Debug` rendering: it is generated by the compiler.
- The `Result<T>` alias: it is only a type synonym.
- Retry or abort policy for each kind: it lives in the callers, outside this file.
- Errors.Description: it does not promise that an `Io` or `DBus` message differs from the fixed messages. The foreign description can be any text.
