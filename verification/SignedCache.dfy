/** Loading a signed file: a cache that only ever holds what the verifier accepted, refreshed over the network. */
module SignedCaches {
  import opened Text

  datatype Mode = Normal | Force

  /** What one download round ends in: an error, a 304, or a body. */
  datatype Download = Unavailable | NotModified | Body(bytes: string)

  /** Checks an envelope and takes its payload out; `IsText` says whether bytes are UTF-8. */
  type Verifier = string -> Option<string>

  datatype Loaded = Loaded(payload: string, previous: Option<string>, fellBack: bool)

  datatype Error = Io | NotText | CannotDownload

  datatype Result = Ok(loaded: Loaded) | Err(error: Error)

  datatype Reading = Nothing | Bad | Payload(text: string)

  /** What a file's bytes are worth: an absent or empty file is nothing. */
  function Worth(file: Option<string>, verify: Verifier, isText: string -> bool): Reading {
    if file.None? || file.value == "" then Nothing
    else
      var payload := verify(file.value);
      if payload.None? || !isText(payload.value) then Bad else Payload(payload.value)
  }

  /** What a download is worth. */
  predicate IsGood(d: Download, verify: Verifier, isText: string -> bool) {
    d.Body? && verify(d.bytes).Some? && isText(verify(d.bytes).value)
  }

  predicate IsUnverified(d: Download, verify: Verifier) {
    d.Body? && verify(d.bytes).None?
  }

  /** Whether the rounds give an answer to a load that starts from a verified file: they do unless a round that
      counts brings a verified body that is no text, or two bodies in a row do not verify. */
  predicate AnswersFromVerified(d1: Download, d2: Download, verify: Verifier, isText: string -> bool) {
    || d1.Unavailable? || d1.NotModified? || IsGood(d1, verify, isText)
    || (IsUnverified(d1, verify) && (d2.Unavailable? || d2.NotModified? || IsGood(d2, verify, isText)))
  }

  /** The same from any other file: only a verified download answers, the first one or, if that gave a reason to
      try again, the second. A load that has already thrown a corrupt file away does not try again. */
  predicate AnswersFromUnverified(there: bool, corrupt: bool, d1: Download, d2: Download, verify: Verifier,
                                  isText: string -> bool) {
    || IsGood(d1, verify, isText)
    || (!corrupt && (IsUnverified(d1, verify) || (d1.NotModified? && there)) && IsGood(d2, verify, isText))
  }

  /** The round gives a reason to try again: a body that does not verify, or no change to a file that does not. */
  predicate TriesAgain(d: Download, corrupt: bool, before: Option<string>, verify: Verifier, isText: string -> bool) {
    !corrupt && (IsUnverified(d, verify) || (d.NotModified? && before.Some? && !Worth(before, verify, isText).Payload?))
  }

  /** What the deciding round makes of the file it found, while all calls go through: a verified body is stored and
      is the answer; after a 304, or offline, a file that verifies is the answer and stays; a file that does not
      verify is not kept, unless the body is no text. */
  ghost predicate Ends(d: Download, before: Option<string>, previous: Option<string>, verify: Verifier, isText: string -> bool,
                       result: Result, after: Option<string>)
  {
    match d
    case Body(bytes) =>
      if verify(bytes).None? then
        result == Err(CannotDownload) && after == if Worth(before, verify, isText).Payload? then before else None
      else if isText(verify(bytes).value) then
        result == Ok(Loaded(verify(bytes).value, previous, false)) && after == Some(bytes)
      else result == Err(NotText) && after == before
    case NotModified =>
      (match Worth(before, verify, isText)
       case Payload(text) => result == Ok(Loaded(text, previous, false)) && after == before
       case _ => result == Err(if before.Some? then CannotDownload else Io) && after == None)
    case Unavailable =>
      (match Worth(before, verify, isText)
       case Payload(text) => result == Ok(Loaded(text, None, true)) && after == before
       case _ => result == Err(CannotDownload) && after == None)
  }

  /** One round, or two if the first gives a reason to try again. */
  ghost predicate EndsInTime(d1: Download, d2: Download, corrupt: bool, before: Option<string>, previous: Option<string>,
                             verify: Verifier, isText: string -> bool, result: Result, after: Option<string>, rounds: int)
  {
    if !TriesAgain(d1, corrupt, before, verify, isText) then
      rounds == 1 && Ends(d1, before, previous, verify, isText, result, after)
    else
      rounds == 2 && Ends(d2, if d1.NotModified? then None else before, previous, verify, isText, result, after)
  }

  /** When that is an answer. */
  lemma AnsweredExactly(d1: Download, d2: Download, corrupt: bool, before: Option<string>, previous: Option<string>,
                        verify: Verifier, isText: string -> bool, result: Result, after: Option<string>, rounds: int)
    requires EndsInTime(d1, d2, corrupt, before, previous, verify, isText, result, after, rounds)
    requires corrupt ==> !Worth(before, verify, isText).Payload?
    ensures result.Ok? <==>
            if Worth(before, verify, isText).Payload? then AnswersFromVerified(d1, d2, verify, isText)
            else AnswersFromUnverified(before.Some?, corrupt, d1, d2, verify, isText)
    ensures IsGood(d1, verify, isText) ==>
            after == Some(d1.bytes) && result == Ok(Loaded(verify(d1.bytes).value, previous, false))
  {}

  class SignedCache {
    var file: Option<string>
    var downloads: nat
    const verify: Verifier
    const isText: string -> bool
    var readCount: nat
    /** Which reads of a nonempty file go through. */
    const readOk: nat -> bool
    /** The file can be touched, removed and replaced. */
    const writable: bool

    constructor (file: Option<string>, verify: Verifier, isText: string -> bool, readOk: nat -> bool, writable: bool)
      ensures this.file == file && downloads == 0 && readCount == 0 && this.verify == verify && this.isText == isText
      ensures this.readOk == readOk && this.writable == writable
    {
      this.file, downloads, readCount := file, 0, 0;
      this.verify, this.isText, this.readOk, this.writable := verify, isText, readOk, writable;
    }

    ghost predicate Readable() {
      forall n :: readOk(n)
    }

    ghost predicate Reliable() {
      Readable() && writable
    }

    function Value(): Reading
      reads this
    {
      Worth(file, verify, isText)
    }

    method Works() returns (works: bool)
      ensures writable ==> works
    {
      var chance: bool := *;
      works := writable || chance;
    }

    predicate ExistsNonempty()
      reads this
    {
      file.Some? && file.value != ""
    }

    /** A read that fails is taken for a bad file. */
    method ReadVerified() returns (reading: Reading)
      modifies this`readCount
      ensures reading == if !ExistsNonempty() then Nothing else if readOk(old(readCount)) then Value() else Bad
      ensures readCount == old(readCount) + if ExistsNonempty() then 1 else 0
    {
      if !ExistsNonempty() {
        return Nothing;
      }
      reading := if readOk(readCount) then Value() else Bad;
      readCount := readCount + 1;
    }

    method Remove()
      modifies this`file
      ensures file == old(file) || file == None
      ensures writable ==> file == None
    {
      var works := Works();
      if works {
        file := None;
      }
    }

    /** Replaces the whole file at once or leaves it alone. */
    method WriteAtomic(bytes: string) returns (ok: bool)
      modifies this`file
      ensures file == if ok then Some(bytes) else old(file)
      ensures writable ==> ok
    {
      ok := Works();
      if ok {
        file := Some(bytes);
      }
    }

    /** Fails on a missing file. */
    method Touch() returns (ok: bool)
      ensures ok ==> file.Some?
      ensures writable && file.Some? ==> ok
    {
      var works := Works();
      ok := works && file.Some?;
    }

    method Fetch(download: nat -> Download) returns (d: Download)
      modifies this`downloads
      ensures d == download(old(downloads)) && downloads == old(downloads) + 1
    {
      d := download(downloads);
      downloads := downloads + 1;
    }

    /** A prior payload is reported only for a forced refresh. */
    function ForcePrevious(mode: Mode, preserved: Option<string>): Option<string> {
      if mode.Force? then preserved else None
    }

    method FallBack(preserved: Option<string>) returns (result: Result)
      requires preserved.Some? ==> Value() == Payload(preserved.value)
      modifies this`file, this`readCount
      ensures result.Ok? ==> file == old(file) && Value() == Payload(result.loaded.payload) && result.loaded.fellBack
                                             && result.loaded.previous.None?
      ensures file == old(file) || file == None
      ensures Readable() ==> (result.Ok? <==> old(Value()).Payload?)
      ensures preserved.Some? ==> result.Ok?
      ensures result.Err? ==> result.error == CannotDownload && (writable ==> file == None)
      ensures preserved.None? && writable && old(Value()).Payload? ==>
                (result.Ok? <==> readOk(old(readCount))) && (file == old(file) <==> readOk(old(readCount)))
      ensures Readable() && old(Value()).Payload? ==> file == old(file)
    {
      if preserved.Some? {
        return Ok(Loaded(preserved.value, None, true));
      }
      var reading := ReadVerified();
      if reading.Payload? {
        return Ok(Loaded(reading.text, None, true));
      }
      Remove();
      return Err(CannotDownload);
    }

    /** Downloads until a round settles it, at most twice. */
    method FetchAndStore(mode: Mode, known: Option<string>, corrupt: bool, download: nat -> Download) returns (result: Result)
      requires verify("").None? && (known.Some? ==> Value() == Payload(known.value)) && (Readable() && corrupt ==> !Value().Payload?)
      modifies this
      ensures old(downloads) < downloads <= old(downloads) + 2
      ensures result.Ok? ==> Value() == Payload(result.loaded.payload)
      ensures result.Ok? && result.loaded.fellBack ==> file == old(file)
      ensures Readable() && result.Ok? && !result.loaded.fellBack ==> result.loaded.previous == ForcePrevious(mode, known)
      ensures download(old(downloads)).Unavailable? && known.Some? ==> result.Ok? && file == old(file)
      ensures download(old(downloads)).Unavailable? && known.None? && writable && old(Value()).Payload? ==>
                (result.Ok? <==> readOk(old(readCount))) && (file == old(file) <==> readOk(old(readCount)))
      ensures download(old(downloads)).Unavailable? && old(file) == None ==> result.Err? && file == None
      ensures Readable() && old(Value()).Payload? ==> Value().Payload?
      ensures file == old(file) || file == None || (result.Ok? && Value().Payload? && !result.loaded.fellBack)
      ensures Reliable() ==>
                EndsInTime(download(old(downloads)), download(old(downloads) + 1), corrupt, old(file), ForcePrevious(mode, known),
                           verify, isText, result, file, downloads - old(downloads))
      ensures Reliable() && IsGood(download(old(downloads)), verify, isText) ==>
                var bytes := download(old(downloads)).bytes;
                file == Some(bytes) && result == Ok(Loaded(verify(bytes).value, ForcePrevious(mode, known), false))
    {
      var preserved, afterCorrupt := known, corrupt;
      while true
        invariant preserved.Some? ==> preserved == known && Value() == Payload(preserved.value)
        invariant file == old(file) || file == None
        invariant Readable() && old(Value()).Payload? ==> file == old(file)
        invariant downloads == old(downloads) + if corrupt == afterCorrupt then 0 else 1
        invariant corrupt ==> afterCorrupt
        invariant corrupt == afterCorrupt ==> file == old(file)
        invariant corrupt != afterCorrupt ==> !download(old(downloads)).Unavailable?
        invariant Readable() ==> preserved == known
        invariant downloads == old(downloads) ==> preserved == known && readCount == old(readCount)
        invariant corrupt != afterCorrupt ==> !IsGood(download(old(downloads)), verify, isText)
        invariant Reliable() && corrupt != afterCorrupt ==> TriesAgain(download(old(downloads)), corrupt, old(file), verify, isText)
        invariant Reliable() && corrupt != afterCorrupt ==>
                    var d1 := download(old(downloads));
                    || (IsUnverified(d1, verify) && file == old(file))
                    || (d1.NotModified? && old(file).Some? && file == None && !old(Value()).Payload?)
        decreases !afterCorrupt
      {
        var d := Fetch(download);
        match d
        case NotModified =>
          var touched := Touch();
          if !touched {
            return Err(Io);
          }
          var reading := ReadVerified();
          if reading.Payload? {
            return Ok(Loaded(reading.text, ForcePrevious(mode, preserved), false));
          }
          Remove();
          if afterCorrupt {
            return Err(CannotDownload);
          }
          preserved, afterCorrupt := None, true;
        case Body(bytes) =>
          var payload := verify(bytes);
          if payload.Some? {
            if !isText(payload.value) {
              return Err(NotText);
            }
            var stored := WriteAtomic(bytes);
            return if stored then Ok(Loaded(payload.value, ForcePrevious(mode, preserved), false)) else Err(Io);
          }
          if afterCorrupt {
            var reading := ReadVerified();
            if !reading.Payload? {
              Remove();
            }
            return Err(CannotDownload);
          }
          afterCorrupt := true;
        case Unavailable =>
          result := FallBack(preserved);
          return;
      }
    }

    /** Loads the payload: from a usable cache without any download, else refreshed. What is returned is always
        what the cache verifies to in the end. While the file can be read, a cache that verified at the start still
        does; offline, in either mode, it is kept exactly if the first read goes through. */
    method LoadSigned(mode: Mode, recent: bool, download: nat -> Download) returns (result: Result)
      requires verify("").None?
      modifies this
      ensures downloads <= old(downloads) + 2
      ensures result.Ok? ==> Value() == Payload(result.loaded.payload)
      ensures result.Ok? && result.loaded.fellBack ==> file == old(file) && downloads > old(downloads)
      ensures Readable() && result.Ok? && !result.loaded.fellBack && mode.Force? ==>
                result.loaded.previous == if old(Value()).Payload? then Some(old(Value()).text) else None
      ensures Readable() && old(Value()).Payload? ==> Value().Payload?
      ensures file == old(file) || file == None || (result.Ok? && Value().Payload? && !result.loaded.fellBack)
      ensures writable && old(Value()).Payload? && download(old(downloads)).Unavailable? ==>
                (result.Ok? <==> readOk(old(readCount))) && (file == old(file) <==> readOk(old(readCount)))
      ensures Readable() && mode.Normal? && recent && old(Value()).Payload? ==>
                result == Ok(Loaded(old(Value()).text, None, false)) && downloads == old(downloads)
      ensures Reliable() && !(mode.Normal? && recent) && old(Value()).Payload? ==>
                (result.Ok? <==>
                   AnswersFromVerified(download(old(downloads)), download(old(downloads) + 1), verify, isText))
      ensures Reliable() && !old(Value()).Payload? ==>
                var discarded := old(Value()).Bad? && (mode.Force? || recent);
                (result.Ok? <==>
                   AnswersFromUnverified(old(file).Some? && !discarded, discarded && mode.Normal?,
                                         download(old(downloads)), download(old(downloads) + 1), verify, isText))
      ensures Reliable() && !(mode.Normal? && recent && old(Value()).Payload?) ==>
                var discarded := old(Value()).Bad? && (mode.Force? || recent);
                var previous := if mode.Force? && old(Value()).Payload? then Some(old(Value()).text) else None;
                EndsInTime(download(old(downloads)), download(old(downloads) + 1), discarded && mode.Normal?,
                           if discarded then None else old(file), previous, verify, isText, result, file,
                           downloads - old(downloads))
      ensures Reliable() && !(mode.Normal? && recent && old(Value()).Payload?) &&
              IsGood(download(old(downloads)), verify, isText) ==>
                var bytes := download(old(downloads)).bytes;
                file == Some(bytes) && result.Ok? && result.loaded.payload == verify(bytes).value && !result.loaded.fellBack
      ensures Reliable() && mode.Normal? && recent && old(Value()).Payload? ==> file == old(file)
      ensures result.Ok? ==> file.Some? && verify(file.value) == Some(result.loaded.payload) && isText(result.loaded.payload)
      ensures var was := old(file);
              Reliable() && was.Some? && was.value != "" && verify(was.value).Some? && isText(verify(was.value).value) ==>
                && file.Some? && verify(file.value).Some?
                && (mode.Normal? && recent ==>
                      file == was && result == Ok(Loaded(verify(was.value).value, None, false)) && downloads == old(downloads))
    {
      var preserved := None;
      if mode.Force? {
        var reading := ReadVerified();
        if reading.Payload? {
          preserved := Some(reading.text);
        } else if reading.Bad? {
          Remove();
        }
      } else if ExistsNonempty() && recent {
        var reading := ReadVerified();
        if reading.Payload? {
          return Ok(Loaded(reading.text, None, false));
        }
        if reading.Bad? {
          Remove();
          result := FetchAndStore(mode, None, true, download);
          return;
        }
      }
      result := FetchAndStore(mode, preserved, false, download);
    }
  }
}
