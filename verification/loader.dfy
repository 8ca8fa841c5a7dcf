/** `try_read_csv` and `load_data`: the ordered encoding fallback chain in
    front of the CSV decoder, and the existence check in front of that. */
module Loader {
  import opened Wrappers
  import opened Tables

  /** What the decoder raised. */
  datatype DecodeError = DecodeError(message: string)

  /** `pd.read_csv(path, encoding=enc)` on the fixed input path, as a function
      of the encoding label. The decoder itself is not modelled. */
  type Reader = string -> Result<Table, DecodeError>

  /** One decode attempt, in the order the attempts are made. */
  datatype Attempt = Tried(encoding: string) | Permissive

  /** A successful read and the label of the encoding that produced it. */
  datatype Decoded = Decoded(table: Table, encoding: string)

  /** How `try_read_csv` fails: it re-raises the last error of the encoding
      loop; with no encodings there is none, and `raise None` raises a
      `TypeError` instead. */
  datatype ReadFailure = Raised(error: DecodeError) | RaisedNothing

  datatype ReadOutcome = ReadOutcome(result: Result<Decoded, ReadFailure>, attempts: seq<Attempt>)

  const DEFAULT_ENCODINGS: seq<string> := ["utf-8", "utf-8-sig", "utf-16", "cp1252", "latin1"]
  const PERMISSIVE_LABEL: string := "utf-8 (errors=replace, python engine)"

  /** `encodings=None` selects the default list; any list, even an empty one, is used as given. */
  function Encodings(encodings: Option<seq<string>>): seq<string> {
    match encodings
    case None => DEFAULT_ENCODINGS
    case Some(encs) => encs
  }

  /** `last_err` on entry to iteration `i`: nothing before the first
      attempt, afterwards the error of the attempt just made. */
  predicate LastError(encs: seq<string>, i: nat, read: Reader, lastErr: Option<DecodeError>)
    requires i <= |encs|
  {
    if i == 0 then lastErr == None
    else read(encs[i - 1]).Failure? && lastErr == Some(read(encs[i - 1]).error)
  }

  /** The loop from position `i` on, `lastErr` being the error of the
      previous attempt, followed by the permissive read. */
  function TryFrom(encs: seq<string>, i: nat, read: Reader, permissive: Result<Table, DecodeError>,
                   lastErr: Option<DecodeError>): (r: ReadOutcome)
    requires i <= |encs|
    requires LastError(encs, i, read, lastErr)
    ensures 0 < |r.attempts| <= |encs| - i + 1
    ensures forall k :: 0 <= k < |r.attempts| ==>
      r.attempts[k] == if i + k < |encs| then Tried(encs[i + k]) else Permissive
    decreases |encs| - i
  {
    if i == |encs| then
      match permissive
      case Success(t) => ReadOutcome(Success(Decoded(t, PERMISSIVE_LABEL)), [Permissive])
      case Failure(_) =>
        ReadOutcome(Failure(if lastErr.Some? then Raised(lastErr.value) else RaisedNothing), [Permissive])
    else
      match read(encs[i])
      case Success(t) => ReadOutcome(Success(Decoded(t, encs[i])), [Tried(encs[i])])
      case Failure(e) =>
        var rest := TryFrom(encs, i + 1, read, permissive, Some(e));
        ReadOutcome(rest.result, [Tried(encs[i])] + rest.attempts)
  }

  /** `try_read_csv(path, encodings)`. Attempts follow the encoding list in
      order, and at most the permissive read comes after them. */
  function TryReadCsv(encodings: Option<seq<string>>, read: Reader, permissive: Result<Table, DecodeError>): (r: ReadOutcome)
    ensures 0 < |r.attempts| <= |Encodings(encodings)| + 1
    ensures forall k :: 0 <= k < |r.attempts| ==>
      r.attempts[k] == if k < |Encodings(encodings)| then Tried(Encodings(encodings)[k]) else Permissive
  {
    TryFrom(Encodings(encodings), 0, read, permissive, None)
  }

  /** The attempts `Tried(encs[0]), ..., Tried(encs[n-1])`. */
  function TriedPrefix(encs: seq<string>, n: nat): (a: seq<Attempt>)
    requires n <= |encs|
  {
    seq(n, k requires 0 <= k < n => Tried(encs[k]))
  }

  lemma {:induction false} FirstSuccessFrom(encs: seq<string>, i: nat, read: Reader,
                                           permissive: Result<Table, DecodeError>, lastErr: Option<DecodeError>, w: nat)
    requires i <= w < |encs|
    requires LastError(encs, i, read, lastErr)
    requires read(encs[w]).Success?
    requires forall k :: i <= k < w ==> read(encs[k]).Failure?
    ensures TryFrom(encs, i, read, permissive, lastErr).result == Success(Decoded(read(encs[w]).value, encs[w]))
    ensures |TryFrom(encs, i, read, permissive, lastErr).attempts| == w - i + 1
    decreases w - i
  {
    if i < w {
      FirstSuccessFrom(encs, i + 1, read, permissive, Some(read(encs[i]).error), w);
    }
  }

  /** The first encoding whose read succeeds wins: its table is returned with
      its label, every earlier encoding was tried and failed, and nothing
      after it is tried. */
  lemma FirstSuccessWins(encodings: Option<seq<string>>, read: Reader, permissive: Result<Table, DecodeError>, w: nat)
    requires w < |Encodings(encodings)|
    requires read(Encodings(encodings)[w]).Success?
    requires forall k :: 0 <= k < w ==> read(Encodings(encodings)[k]).Failure?
    ensures var encs := Encodings(encodings); var r := TryReadCsv(encodings, read, permissive);
      && r.result == Success(Decoded(read(encs[w]).value, encs[w]))
      && r.attempts == TriedPrefix(encs, w + 1)
  {
    FirstSuccessFrom(Encodings(encodings), 0, read, permissive, None, w);
  }

  lemma {:induction false} AllFailFrom(encs: seq<string>, i: nat, read: Reader,
                                      permissive: Result<Table, DecodeError>, lastErr: Option<DecodeError>)
    requires i <= |encs|
    requires LastError(encs, i, read, lastErr)
    requires forall k :: i <= k < |encs| ==> read(encs[k]).Failure?
    ensures var r := TryFrom(encs, i, read, permissive, lastErr);
      && |r.attempts| == |encs| - i + 1
      && r.result == match permissive
           case Success(t) => Success(Decoded(t, PERMISSIVE_LABEL))
           case Failure(_) =>
             Failure(if |encs| > 0 then Raised(read(encs[|encs| - 1]).error) else RaisedNothing)
    decreases |encs| - i
  {
    if i < |encs| {
      AllFailFrom(encs, i + 1, read, permissive, Some(read(encs[i]).error));
    }
  }

  /** When every listed encoding fails, all of them are tried and then the
      permissive read: its table comes back under `PERMISSIVE_LABEL`, and if
      it fails too the error raised is the last encoding's error, not the
      permissive read's own (or `RaisedNothing` when the list was empty). */
  lemma AllFailFallsBack(encodings: Option<seq<string>>, read: Reader, permissive: Result<Table, DecodeError>)
    requires forall k :: 0 <= k < |Encodings(encodings)| ==> read(Encodings(encodings)[k]).Failure?
    ensures var encs := Encodings(encodings); var r := TryReadCsv(encodings, read, permissive);
      && r.attempts == TriedPrefix(encs, |encs|) + [Permissive]
      && r.result == match permissive
           case Success(t) => Success(Decoded(t, PERMISSIVE_LABEL))
           case Failure(_) =>
             Failure(if |encs| > 0 then Raised(read(encs[|encs| - 1]).error) else RaisedNothing)
  {
    AllFailChain(Encodings(encodings), read, permissive);
  }

  lemma AllFailChain(encs: seq<string>, read: Reader, permissive: Result<Table, DecodeError>)
    requires forall k :: 0 <= k < |encs| ==> read(encs[k]).Failure?
    ensures var r := TryFrom(encs, 0, read, permissive, None);
      && r.attempts == TriedPrefix(encs, |encs|) + [Permissive]
      && r.result == match permissive
           case Success(t) => Success(Decoded(t, PERMISSIVE_LABEL))
           case Failure(_) =>
             Failure(if |encs| > 0 then Raised(read(encs[|encs| - 1]).error) else RaisedNothing)
  {
    AllFailFrom(encs, 0, read, permissive, None);
    var r := TryFrom(encs, 0, read, permissive, None);
    assert forall k :: 0 <= k < |r.attempts| ==> r.attempts[k] == (TriedPrefix(encs, |encs|) + [Permissive])[k];
  }

  /** How `load_data` fails. */
  datatype LoadError = NotFound | Unreadable(failure: ReadFailure)

  datatype LoadOutcome = LoadOutcome(result: Result<Table, LoadError>, attempts: seq<Attempt>)

  /** `load_data()`: a missing path is reported before any decode attempt;
      otherwise the default fallback chain decides, and only the table is
      returned (the winning label is only logged). */
  function LoadData(pathExists: bool, read: Reader, permissive: Result<Table, DecodeError>): (r: LoadOutcome)
    ensures !pathExists ==> r == LoadOutcome(Failure(NotFound), [])
    ensures pathExists ==>
      var chain := TryReadCsv(None, read, permissive);
      && r.attempts == chain.attempts
      && (r.result.Success? <==> chain.result.Success?)
      && (r.result.Success? ==> r.result.value == chain.result.value.table)
      && (r.result.Failure? ==> r.result.error == Unreadable(chain.result.error))
  {
    if !pathExists then LoadOutcome(Failure(NotFound), [])
    else
      var chain := TryReadCsv(None, read, permissive);
      match chain.result
      case Success(d) => LoadOutcome(Success(d.table), chain.attempts)
      case Failure(f) => LoadOutcome(Failure(Unreadable(f)), chain.attempts)
  }
}
