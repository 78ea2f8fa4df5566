/** Fetching files into the cache: resume, retry, check, publish. */
module Downloads {
  import opened Text

  const MAX_ATTEMPTS: nat := 5

  // ----- the server -----

  /** `rangeStart` is the first offset a `Content-Range` header states; `cut` is a body that ends in an error. */
  datatype Reply =
    | NoReply
    | Reply(status: nat, rangeStart: Option<nat>, chunks: seq<string>, cut: bool)

  /** What comes back for the `n`th request, by URL and offset asked from. */
  type Server = (nat, string, nat) -> Reply

  function Joined(chunks: seq<string>): string {
    if chunks == [] then "" else Joined(chunks[..|chunks| - 1]) + chunks[|chunks| - 1]
  }

  lemma {:induction false} JoinedPrefix(chunks: seq<string>, i: nat)
    requires i <= |chunks|
    ensures Joined(chunks[..i]) <= Joined(chunks)
  {
    if i == |chunks| {
      assert chunks[..i] == chunks;
    } else {
      JoinedPrefix(chunks[..|chunks| - 1], i);
      assert chunks[..|chunks| - 1][..i] == chunks[..i];
    }
  }

  lemma JoinedNone(chunks: seq<string>)
    ensures Joined(chunks[..0]) == ""
  {}

  lemma JoinedStep(chunks: seq<string>, i: nat)
    requires i < |chunks|
    ensures Joined(chunks[..i + 1]) == Joined(chunks[..i]) + chunks[i]
    ensures Joined(chunks[..i + 1]) <= Joined(chunks)
  {
    assert chunks[..i + 1][..i] == chunks[..i];
    JoinedPrefix(chunks, i + 1);
  }

  // ----- what lies in the cache -----

  /** `Odd` is anything that is not a regular file. */
  datatype Entry = Absent | File(content: string) | Odd

  datatype Alias = NoAlias | LinkTo(url: string) | Plain | Directory

  function EntryOf(entries: map<string, Entry>, url: string): Entry {
    if url in entries then entries[url] else Absent
  }

  function AliasOf(aliases: map<string, Alias>, name: string): Alias {
    if name in aliases then aliases[name] else NoAlias
  }

  ghost predicate SameFiles(before: map<string, Entry>, after: map<string, Entry>, but: string) {
    forall u | u != but :: EntryOf(before, u) == EntryOf(after, u)
  }

  ghost predicate SameAliases(before: map<string, Alias>, after: map<string, Alias>, but: string) {
    forall a | a != but :: AliasOf(before, a) == AliasOf(after, a)
  }

  function Kept(entry: Entry): string {
    if entry.File? then entry.content else ""
  }

  // ----- one attempt -----

  /** What an accepted reply is written after: all that was kept for a resume at its end, nothing for a restart. */
  function Accepted(before: Entry, reply: Reply): Option<string> {
    if before.Odd? || reply.NoReply? then None
    else if reply.status == 206 then if reply.rangeStart == Some(|Kept(before)|) then Some(Kept(before)) else None
    else if reply.status == 200 then Some("")
    else None
  }

  /** What one attempt may leave behind. */
  ghost predicate Received(before: Entry, reply: Reply, after: Entry, ok: bool) {
    match Accepted(before, reply)
    case None => !ok && after == before
    case Some(base) =>
      if ok then !reply.cut && after == File(base + Joined(reply.chunks))
      else after == before || (after.File? && base <= after.content <= base + Joined(reply.chunks))
  }

  /** The body is a cut-off prefix of `blob`, or of its tail from the offset the reply states. */
  predicate HonestReply(reply: Reply, blob: string) {
    reply.Reply? ==>
      && (reply.status == 200 ==> Joined(reply.chunks) <= blob)
      && (reply.status == 206 && reply.rangeStart.Some? && reply.rangeStart.value <= |blob| ==>
            Joined(reply.chunks) <= blob[reply.rangeStart.value..])
  }

  ghost predicate Honest(server: Server, url: string, blob: string) {
    forall n: nat, offset: nat :: HonestReply(server(n, url, offset), blob)
  }

  predicate IsPart(entry: Entry, blob: string) {
    entry.File? ==> entry.content <= blob
  }

  /** Whatever an attempt leaves, an honest server keeps it a prefix of the blob. */
  lemma HonestReplyKeepsPart(before: Entry, reply: Reply, after: Entry, ok: bool, blob: string)
    requires Received(before, reply, after, ok) && HonestReply(reply, blob) && IsPart(before, blob)
    ensures IsPart(after, blob)
  {}

  // ----- a server that has the whole blob -----

  /** Honours ranges and never cuts a body. */
  function WholeReply(blob: string, offset: nat): Reply {
    if offset == 0 then Reply(200, None, [blob], false)
    else if offset < |blob| then Reply(206, Some(offset), [blob[offset..]], false)
    else Reply(416, None, [], false)
  }

  ghost predicate Serves(server: Server, url: string, blob: string) {
    forall n: nat, offset: nat :: server(n, url, offset) == WholeReply(blob, offset)
  }

  /** So much is kept already that the server has no range left to give. */
  predicate PastEnd(entry: Entry, blob: string) {
    |Kept(entry)| > 0 && |Kept(entry)| >= |blob|
  }

  /** What is kept, followed by what the blob has from there on. */
  function Completed(entry: Entry, blob: string): (content: string)
    requires |Kept(entry)| <= |blob|
  {
    Kept(entry) + blob[|Kept(entry)|..]
  }

  /** A resume completes the blob exactly if what was kept is the start of it. */
  lemma CompletedIsBlob(entry: Entry, blob: string)
    requires |Kept(entry)| <= |blob|
    ensures Completed(entry, blob) == blob <==> Kept(entry) <= blob
  {}

  /** What a forced download can come to: bytes of another file before the end of the blob, or, with a whole
      leftover, no bytes at all. */
  lemma LeftoverSpoils()
    ensures !PastEnd(File("x"), "ab") && Completed(File("x"), "ab") == "xb" && "xb" != "ab"
    ensures PastEnd(File("ab"), "ab")
  {
    assert "xb"[0] != "ab"[0];
    assert "ab"[1..] == "b";
  }

  lemma JoinedOne(s: string)
    ensures Joined([s]) == s
  {}

  /** A whole reply either completes what was kept or, past the end, changes nothing. */
  lemma WholeReplyReceived(before: Entry, blob: string, after: Entry, ok: bool)
    requires Received(before, WholeReply(blob, |Kept(before)|), after, ok) && !before.Odd?
    ensures PastEnd(before, blob) ==> !ok && after == before
    ensures !PastEnd(before, blob) ==> Accepted(before, WholeReply(blob, |Kept(before)|)).Some?
    ensures WholeReply(blob, |Kept(before)|).Reply? && !WholeReply(blob, |Kept(before)|).cut
    ensures !PastEnd(before, blob) && ok ==> after == File(Completed(before, blob))
  {
    JoinedOne(blob);
    if |Kept(before)| <= |blob| {
      JoinedOne(blob[|Kept(before)|..]);
    }
  }

  // ----- a row of failed attempts -----

  /** The whole of what an attempt was after has arrived. */
  function Arrived(before: Entry, reply: Reply): Option<string> {
    match Accepted(before, reply)
    case None => None
    case Some(base) => if reply.cut then None else Some(base + Joined(reply.chunks))
  }

  /** A file that arrived in full is thrown away only if its digest is not the declared one; after any other failed
      attempt what was kept for a resume still is. */
  ghost predicate FailedOnce(before: Entry, reply: Reply, expected: Option<string>, digest: string -> string, after: Entry) {
    match Arrived(before, reply)
    case Some(content) => expected.Some? && digest(content) != expected.value && after == Absent
    case None => Received(before, reply, after, false)
  }

  /** `parts` is the file in flight before and after each of these attempts, all failed. */
  ghost predicate FailedInARow(server: Server, origin: string, first: nat, expected: Option<string>, digest: string -> string,
                               parts: seq<Entry>)
  {
    forall i | 0 <= i < |parts| - 1 ::
      FailedOnce(parts[i], server(first + i, origin, |Kept(parts[i])|), expected, digest, parts[i + 1])
  }

  ghost predicate FailedFromTo(server: Server, origin: string, first: nat, expected: Option<string>, digest: string -> string,
                               times: nat, before: Entry, after: Entry)
  {
    exists parts :: |parts| == times + 1 && parts[0] == before && parts[times] == after &&
                    FailedInARow(server, origin, first, expected, digest, parts)
  }

  lemma AttemptLeaves(before: Entry, reply: Reply, after: Entry, ok: bool, expected: Option<string>, digest: string -> string)
    requires Received(before, reply, after, ok)
    ensures ok ==> after.File? && Arrived(before, reply) == Some(after.content)
    ensures !ok && Arrived(before, reply).None? ==> FailedOnce(before, reply, expected, digest, after)
    ensures Accepted(before, reply).Some? && !reply.cut <==> Arrived(before, reply).Some?
  {
    hide Joined;
  }

  lemma ThrownAway(before: Entry, reply: Reply, expected: Option<string>, digest: string -> string)
    requires expected.Some? && Arrived(before, reply).Some? && digest(Arrived(before, reply).value) != expected.value
    ensures FailedOnce(before, reply, expected, digest, Absent)
  {
    hide Arrived;
  }

  lemma NoneFailed(server: Server, origin: string, first: nat, expected: Option<string>, digest: string -> string, part: Entry)
    ensures FailedFromTo(server, origin, first, expected, digest, 0, part, part)
  {
    assert FailedInARow(server, origin, first, expected, digest, [part]);
  }

  lemma OneMoreFailed(server: Server, origin: string, first: nat, expected: Option<string>, digest: string -> string,
                      times: nat, before: Entry, last: Entry, after: Entry)
    requires FailedFromTo(server, origin, first, expected, digest, times, before, last)
    requires FailedOnce(last, server(first + times, origin, |Kept(last)|), expected, digest, after)
    ensures FailedFromTo(server, origin, first, expected, digest, times + 1, before, after)
  {
    hide FailedOnce;
    var parts :| |parts| == times + 1 && parts[0] == before && parts[times] == last &&
                 FailedInARow(server, origin, first, expected, digest, parts);
    var parts' := parts + [after];
    forall i | 0 <= i < |parts'| - 1
      ensures FailedOnce(parts'[i], server(first + i, origin, |Kept(parts'[i])|), expected, digest, parts'[i + 1])
    {
      assert parts'[i] == parts[i] && (i < times ==> parts'[i + 1] == parts[i + 1]);
    }
    assert FailedInARow(server, origin, first, expected, digest, parts');
  }

  /** After so many failed attempts one more brought the whole of `content`. */
  ghost predicate ArrivesAfter(server: Server, origin: string, first: nat, expected: Option<string>, digest: string -> string,
                               times: nat, before: Entry, content: string)
  {
    exists last :: FailedFromTo(server, origin, first, expected, digest, times, before, last) &&
                   Arrived(last, server(first + times, origin, |Kept(last)|)) == Some(content)
  }

  lemma ArrivesNow(server: Server, origin: string, first: nat, expected: Option<string>, digest: string -> string,
                   times: nat, before: Entry, last: Entry, content: string)
    requires FailedFromTo(server, origin, first, expected, digest, times, before, last)
    requires Arrived(last, server(first + times, origin, |Kept(last)|)) == Some(content)
    ensures ArrivesAfter(server, origin, first, expected, digest, times, before, content)
  {
    hide FailedFromTo, Arrived;
  }

  /** The server never starts over when it is asked for a range. */
  ghost predicate HonoursRanges(server: Server, origin: string) {
    forall n: nat, offset: nat | offset > 0 && server(n, origin, offset).Reply? :: server(n, origin, offset).status != 200
  }

  /** What was kept for a resume is still there after attempts that fail, unless a whole file with another digest
      was thrown away. */
  lemma {:induction false} FailuresKeepPart(server: Server, origin: string, first: nat, expected: Option<string>,
                                            digest: string -> string, parts: seq<Entry>)
    requires parts != [] && HonoursRanges(server, origin) && Kept(parts[0]) != ""
    requires FailedInARow(server, origin, first, expected, digest, parts)
    requires forall i | 0 <= i < |parts| - 1 :: Arrived(parts[i], server(first + i, origin, |Kept(parts[i])|)).None?
    ensures Kept(parts[0]) <= Kept(parts[|parts| - 1])
    decreases |parts|
  {
    hide Joined;
    if |parts| > 1 {
      var n := |parts| - 2;
      FailuresKeepPart(server, origin, first, expected, digest, parts[..n + 1]);
      assert FailedOnce(parts[n], server(first + n, origin, |Kept(parts[n])|), expected, digest, parts[n + 1]);
    }
  }

  lemma ResumesAfterFailures(server: Server, origin: string, first: nat, digest: string -> string, times: nat,
                             before: Entry, after: Entry)
    requires FailedFromTo(server, origin, first, None, digest, times, before, after)
    ensures HonoursRanges(server, origin) && Kept(before) != "" ==> Kept(before) <= Kept(after)
  {
    hide Arrived, Received, Kept;
    var parts :| |parts| == times + 1 && parts[0] == before && parts[times] == after &&
                 FailedInARow(server, origin, first, None, digest, parts);
    if HonoursRanges(server, origin) && Kept(before) != "" {
      forall i | 0 <= i < |parts| - 1
        ensures Arrived(parts[i], server(first + i, origin, |Kept(parts[i])|)).None?
      {
        assert FailedOnce(parts[i], server(first + i, origin, |Kept(parts[i])|), None, digest, parts[i + 1]);
      }
      FailuresKeepPart(server, origin, first, None, digest, parts);
    }
  }

  datatype Fault = Unsafe | Http | BadStatus | BadRange | Io | Mismatch(actual: string)

  datatype Outcome = Done(sha256: string, reused: bool) | Failed(fault: Fault)

  datatype Checked = Digest(value: string) | Unreadable

  class Cache {
    /** By URL: the published file and the one in flight. Content lives under a hash of its URL. */
    var finals: map<string, Entry>
    var incompletes: map<string, Entry>
    /** By name: friendly links to published files. */
    var aliases: map<string, Alias>
    var requests: nat
    /** Local file operations that could succeed do. */
    const reliable: bool
    const digest: string -> string

    constructor (digest: string -> string, reliable: bool)
      ensures finals == map[] && incompletes == map[] && aliases == map[] && requests == 0
      ensures this.digest == digest && this.reliable == reliable
    {
      this.digest, this.reliable := digest, reliable;
      finals, incompletes, aliases, requests := map[], map[], map[], 0;
    }

    /** Nothing stands in the way of publishing `url` under `alias`. */
    predicate Clean(url: string, alias: string)
      reads this
    {
      !EntryOf(finals, url).Odd? && !EntryOf(incompletes, url).Odd? && AliasOf(aliases, alias) != Directory
    }

    // ----- local steps -----

    /** Whether a local file operation goes through. */
    method Works() returns (works: bool)
      ensures reliable ==> works
    {
      var chance: bool := *;
      works := reliable || chance;
    }

    /** The digest of a regular file. */
    method Checksum(entry: Entry) returns (checked: Checked)
      ensures checked.Digest? ==> entry.File? && checked.value == digest(entry.content)
      ensures reliable && entry.File? ==> checked.Digest?
    {
      var works := Works();
      checked := if works && entry.File? then Digest(digest(entry.content)) else Unreadable;
    }

    /** Links `alias` to the file of `url`, replacing whatever else stands there except a directory. */
    method EnsureAlias(alias: string, url: string) returns (ok: bool)
      modifies this`aliases
      ensures SameAliases(old(aliases), aliases, alias)
      ensures ok ==> AliasOf(aliases, alias) == LinkTo(url)
      ensures reliable && AliasOf(old(aliases), alias) != Directory ==> ok
      ensures AliasOf(old(aliases), alias) == Directory ==> !ok && aliases == old(aliases)
      ensures !ok ==> AliasOf(aliases, alias) in {AliasOf(old(aliases), alias), NoAlias}
    {
      var there := AliasOf(aliases, alias);
      if there != NoAlias {
        if there == LinkTo(url) {
          return true;
        }
        ok := Works();
        if !ok || there.Directory? {
          return false;
        }
        aliases := aliases[alias := NoAlias];
      }
      ok := Works();
      if ok {
        aliases := aliases[alias := LinkTo(url)];
      }
    }

    /** Moves the file in flight to its final name, then refreshes the alias. */
    method Publish(url: string, alias: string) returns (ok: bool)
      modifies this`finals, this`incompletes, this`aliases
      ensures SameFiles(old(finals), finals, url) && SameFiles(old(incompletes), incompletes, url)
      ensures SameAliases(old(aliases), aliases, alias)
      ensures (finals == old(finals) && incompletes == old(incompletes) && aliases == old(aliases) && !ok)
           || (EntryOf(old(incompletes), url).File? && EntryOf(finals, url) == EntryOf(old(incompletes), url)
               && EntryOf(incompletes, url) == Absent)
      ensures ok ==> AliasOf(aliases, alias) == LinkTo(url)
      ensures (reliable && old(Clean(url, alias)) && EntryOf(old(incompletes), url).File?) ==> ok
    {
      ok := Works();
      if !ok || !EntryOf(incompletes, url).File? || EntryOf(finals, url).Odd? {
        return false;
      }
      finals := finals[url := EntryOf(incompletes, url)];
      incompletes := incompletes[url := Absent];
      ok := EnsureAlias(alias, url);
      if ok {
        ok := Works();
      }
    }

    /** Removes a file. Whether an odd entry goes as well depends on what it is: a link does, a directory not. */
    method DiscardIncomplete(url: string)
      modifies this`incompletes
      ensures SameFiles(old(incompletes), incompletes, url)
      ensures EntryOf(incompletes, url) == EntryOf(old(incompletes), url) || EntryOf(incompletes, url) == Absent
      ensures reliable && !EntryOf(old(incompletes), url).Odd? ==> EntryOf(incompletes, url) == Absent
    {
      var works := Works();
      var isLink: bool := *;
      if works && (EntryOf(incompletes, url).File? || (EntryOf(incompletes, url).Odd? && isLink)) {
        incompletes := incompletes[url := Absent];
      }
    }

    // ----- one attempt -----

    /** Appends the chunks to `base` one by one; a failure leaves some part of what arrived. */
    method StreamBody(url: string, base: string, reply: Reply) returns (ok: bool)
      requires reply.Reply?
      modifies this`incompletes
      ensures SameFiles(old(incompletes), incompletes, url)
      ensures var after := EntryOf(incompletes, url);
              if ok then !reply.cut && after == File(base + Joined(reply.chunks))
              else after.File? && base <= after.content <= base + Joined(reply.chunks)
      ensures reliable && !reply.cut ==> ok
    {
      hide Joined;
      var chunks := reply.chunks;
      var written := base;
      incompletes := incompletes[url := File(written)];
      JoinedNone(chunks);
      for i := 0 to |chunks|
        invariant SameFiles(old(incompletes), incompletes, url)
        invariant written == base + Joined(chunks[..i])
        invariant EntryOf(incompletes, url) == File(written)
      {
        JoinedStep(chunks, i);
        ok := Works();
        if !ok {
          LosePart(url, base, Joined(chunks[..i + 1]));
          return false;
        }
        written := written + chunks[i];
        incompletes := incompletes[url := File(written)];
      }
      assert chunks[..|chunks|] == chunks;
      ok := Works();
      if !ok || reply.cut {
        LosePart(url, base, Joined(chunks));
        return false;
      }
    }

    /** Leaves `base` followed by some prefix of `data`. */
    method LosePart(url: string, base: string, data: string)
      modifies this`incompletes
      ensures SameFiles(old(incompletes), incompletes, url)
      ensures var after := EntryOf(incompletes, url); after.File? && base <= after.content <= base + data
    {
      var kept: int := *;
      var part := if 0 <= kept <= |data| then data[..kept] else data;
      incompletes := incompletes[url := File(base + part)];
    }

    /** One request to `origin` for what is missing of `url`, written to the file in flight; no check and no
        publication. */
    method Attempt(server: Server, origin: string, url: string) returns (failure: Option<Fault>)
      modifies this`incompletes, this`requests
      ensures old(requests) <= requests <= old(requests) + 1
      ensures if failure.None? then requests == old(requests) + 1 else !failure.value.Mismatch?
      ensures reliable && !EntryOf(old(incompletes), url).Odd? ==> requests == old(requests) + 1
      ensures SameFiles(old(incompletes), incompletes, url)
      ensures var before := EntryOf(old(incompletes), url);
              var reply := server(old(requests), origin, |Kept(before)|);
              && Received(before, reply, EntryOf(incompletes, url), failure.None?)
              && (reliable && Accepted(before, reply).Some? && !reply.cut ==> failure.None?)
      ensures var before := EntryOf(old(incompletes), url);
              var reply := server(old(requests), origin, |Kept(before)|);
              reliable && !before.Odd? && failure.Some? ==>
                failure.value == if reply.NoReply? || Accepted(before, reply).Some? then Http
                                 else if reply.status == 206 then BadRange else BadStatus
    {
      var before := EntryOf(incompletes, url);
      var works := Works();
      if before.Odd? || !works {
        return Some(Unsafe);
      }
      var reply := server(requests, origin, |Kept(before)|);
      requests := requests + 1;
      if reply.NoReply? {
        return Some(Http);
      }
      var append := false;
      if reply.status == 206 {
        if reply.rangeStart != Some(|Kept(before)|) {
          return Some(BadRange);
        }
        append := true;
      } else if reply.status != 200 {
        return Some(BadStatus);
      }
      works := Works();
      if !works {
        return Some(Io);
      }
      var ok := StreamBody(url, if append then Kept(before) else "", reply);
      failure := if ok then None else Some(Http);
    }

    /** What has to hold of a published file: it is untouched or, with a declared digest, has that digest. */
    ghost predicate Vetted(expected: Option<string>, before: Entry, after: Entry) {
      after == before || (after.File? && (expected.Some? ==> digest(after.content) == expected.value))
    }

    /** A mismatch is only reported of a digest that is not the declared one. */
    predicate Truthful(expected: Option<string>, outcome: Outcome) {
      outcome.Failed? && outcome.fault.Mismatch? ==> expected.Some? && outcome.fault.actual != expected.value
    }

    /** The final file holds what was asked for, under its digest, and the alias leads to it. */
    predicate Delivered(url: string, alias: string, expected: Option<string>, sha256: string)
      reads this
    {
      && EntryOf(finals, url).File? && digest(EntryOf(finals, url).content) == sha256
      && (expected.Some? ==> sha256 == expected.value)
      && AliasOf(aliases, alias) == LinkTo(url)
    }

    // ----- artifacts -----

    method CheckFile(entry: Entry) returns (ok: bool)
      ensures ok ==> !entry.Odd?
      ensures reliable && !entry.Odd? ==> ok
    {
      ok := Works();
      ok := ok && !entry.Odd?;
    }

    method SafePublish(url: string, alias: string) returns (ok: bool)
      modifies this`finals, this`incompletes, this`aliases
      ensures SameFiles(old(finals), finals, url) && SameFiles(old(incompletes), incompletes, url)
      ensures SameAliases(old(aliases), aliases, alias)
      ensures (finals == old(finals) && incompletes == old(incompletes) && aliases == old(aliases) && !ok)
           || (EntryOf(old(incompletes), url).File? && EntryOf(finals, url) == EntryOf(old(incompletes), url)
               && EntryOf(incompletes, url) == Absent)
      ensures ok ==> AliasOf(aliases, alias) == LinkTo(url)
      ensures (reliable && old(Clean(url, alias)) && EntryOf(old(incompletes), url).File?) ==> ok
    {
      ok := CheckFile(EntryOf(incompletes, url));
      if !ok || EntryOf(incompletes, url).Absent? {
        return false;
      }
      ok := CheckFile(EntryOf(finals, url));
      if ok {
        ok := Publish(url, alias);
      }
    }

    /** One attempt with what follows it: check, then publish or throw away. */
    method TryArtifact(server: Server, url: string, alias: string, expected: Option<string>, ghost blob: string)
      returns (finished: bool, outcome: Outcome)
      modifies this
      ensures old(requests) <= requests <= old(requests) + 1
      ensures SameFiles(old(finals), finals, url) && SameFiles(old(incompletes), incompletes, url)
      ensures SameAliases(old(aliases), aliases, alias)
      ensures Vetted(expected, EntryOf(old(finals), url), EntryOf(finals, url))
      ensures Truthful(expected, outcome)
      ensures !finished ==> outcome.Failed? && finals == old(finals) && aliases == old(aliases)
      ensures outcome.Done? ==> finished && !outcome.reused && requests == old(requests) + 1
                                && Delivered(url, alias, expected, outcome.sha256)
      ensures Honest(server, url, blob) && IsPart(EntryOf(old(incompletes), url), blob) ==>
                IsPart(EntryOf(incompletes, url), blob)
                && (EntryOf(finals, url) == EntryOf(old(finals), url) || IsPart(EntryOf(finals, url), blob))
      ensures reliable && old(Clean(url, alias)) ==>
                requests == old(requests) + 1 && if finished then outcome.Done? else Clean(url, alias)
      ensures (reliable && old(Clean(url, alias)) && Serves(server, url, blob)) ==>
                var before := EntryOf(old(incompletes), url);
                if PastEnd(before, blob) then !finished && EntryOf(incompletes, url) == before
                else if expected.Some? && digest(Completed(before, blob)) != expected.value then
                  !finished && EntryOf(incompletes, url) == Absent
                else outcome.Done? && EntryOf(finals, url) == File(Completed(before, blob))
      ensures var before := EntryOf(old(incompletes), url);
              var reply := server(old(requests), url, |Kept(before)|);
              && (reliable && old(Clean(url, alias)) && !finished ==>
                    FailedOnce(before, reply, expected, digest, EntryOf(incompletes, url))
                    && (Arrived(before, reply).Some? <==> outcome.fault.Mismatch?))
              && (outcome.Done? ==>
                    Arrived(before, reply).Some? && EntryOf(finals, url) == File(Arrived(before, reply).value)
                    && EntryOf(incompletes, url) == Absent)
              && (!finished && expected.None? ==> Received(before, reply, EntryOf(incompletes, url), false))
    {
      hide Joined, HonestReply, Received, Arrived, FailedOnce, PastEnd, Completed, Accepted, WholeReply;
      ghost var before := EntryOf(incompletes, url);
      ghost var reply := server(requests, url, |Kept(before)|);
      var failure := Attempt(server, url, url);
      ghost var after := EntryOf(incompletes, url);
      if HonestReply(reply, blob) && IsPart(before, blob) {
        HonestReplyKeepsPart(before, reply, after, failure.None?, blob);
      }
      if !before.Odd? && reply == WholeReply(blob, |Kept(before)|) {
        WholeReplyReceived(before, blob, after, failure.None?);
      }
      AttemptLeaves(before, reply, after, failure.None?, expected, digest);
      if failure.Some? {
        return false, Failed(failure.value);
      }
      finished, outcome := Settle(url, alias, expected);
      if !finished && reliable && digest(after.content) != expected.value {
        ThrownAway(before, reply, expected, digest);
      }
    }

    /** After a body that arrived in full: checks it, then publishes it or throws it away. */
    method Settle(url: string, alias: string, expected: Option<string>) returns (finished: bool, outcome: Outcome)
      modifies this`finals, this`incompletes, this`aliases
      ensures SameFiles(old(finals), finals, url) && SameFiles(old(incompletes), incompletes, url)
      ensures SameAliases(old(aliases), aliases, alias)
      ensures Vetted(expected, EntryOf(old(finals), url), EntryOf(finals, url))
      ensures EntryOf(finals, url) == EntryOf(old(finals), url) || EntryOf(finals, url) == EntryOf(old(incompletes), url)
      ensures EntryOf(incompletes, url) == EntryOf(old(incompletes), url) || EntryOf(incompletes, url) == Absent
      ensures !finished ==> expected.Some? && outcome.Failed? && finals == old(finals) && aliases == old(aliases)
      ensures Truthful(expected, outcome)
      ensures outcome.Done? ==> finished && !outcome.reused && Delivered(url, alias, expected, outcome.sha256)
                                && EntryOf(finals, url) == EntryOf(old(incompletes), url)
                                && EntryOf(incompletes, url) == Absent
      ensures (reliable && old(Clean(url, alias)) && EntryOf(old(incompletes), url).File?) ==>
                if expected.Some? && digest(EntryOf(old(incompletes), url).content) != expected.value then
                  && !finished && EntryOf(incompletes, url) == Absent
                  && outcome == Failed(Mismatch(digest(EntryOf(old(incompletes), url).content)))
                else outcome.Done?
      ensures !EntryOf(old(incompletes), url).File? ==>
                finished && outcome == Failed(Unsafe) && incompletes == old(incompletes) && finals == old(finals)
    {
      var there := EntryOf(incompletes, url);
      var ok := CheckFile(there);
      if !ok || there.Absent? {
        return true, Failed(Unsafe);
      }
      var checked := Checksum(there);
      if expected.Some? && !(checked.Digest? && checked.value == expected.value) {
        DiscardIncomplete(url);
        return false, Failed(if checked.Digest? then Mismatch(checked.value) else Io);
      }
      if checked.Unreadable? {
        return true, Failed(Io);
      }
      ok := SafePublish(url, alias);
      return true, if ok then Done(checked.value, false) else Failed(Io);
    }

    /** Whether a file on disk already has the declared digest. */
    predicate Holds(entry: Entry, expected: Option<string>) {
      expected.Some? && entry.File? && digest(entry.content) == expected.value
    }

    /** What a caller can check beforehand: a fetch from a server that has everything gets through. */
    predicate Fetchable(url: string, expected: Option<string>, force: bool, blob: string)
      reads this
    {
      Obtainable(EntryOf(finals, url), EntryOf(incompletes, url), expected, force, blob)
    }

    predicate Obtainable(final: Entry, partial: Entry, expected: Option<string>, force: bool, blob: string) {
      || (!force && Holds(final, expected))
      || (!force && Holds(partial, expected))
      || !PastEnd(partial, blob)
    }

    /** What can be had without the network: a final file or a file in flight that has the declared digest. */
    method Reuse(url: string, alias: string, expected: Option<string>) returns (finished: bool, outcome: Outcome)
      modifies this`finals, this`incompletes, this`aliases
      ensures SameFiles(old(finals), finals, url) && SameFiles(old(incompletes), incompletes, url)
      ensures SameAliases(old(aliases), aliases, alias)
      ensures EntryOf(finals, url) == EntryOf(old(finals), url)
           || (EntryOf(finals, url) == EntryOf(old(incompletes), url) && Holds(EntryOf(finals, url), expected))
      ensures EntryOf(incompletes, url) == EntryOf(old(incompletes), url) || EntryOf(incompletes, url) == Absent
      ensures !finished ==> finals == old(finals) && incompletes == old(incompletes) && aliases == old(aliases)
      ensures finished && outcome.Done? ==> expected.Some? && Delivered(url, alias, expected, outcome.sha256)
      ensures finished && outcome.Done? && outcome.reused ==> finals == old(finals)
      ensures Truthful(expected, outcome)
      ensures (reliable && old(Clean(url, alias))) ==>
                if Holds(EntryOf(old(finals), url), expected) || Holds(EntryOf(old(incompletes), url), expected)
                then finished && outcome.Done?
                else !finished
      ensures expected.Some? && (EntryOf(old(finals), url).Odd? ||
                                 (EntryOf(old(incompletes), url).Odd? && !Holds(EntryOf(old(finals), url), expected))) ==>
                finished && outcome == Failed(Unsafe)
    {
      outcome := Failed(Unsafe);
      if expected.None? {
        return false, outcome;
      }
      var ok := CheckFile(EntryOf(finals, url));
      if !ok {
        return true, outcome;
      }
      var checked := Checksum(EntryOf(finals, url));
      if checked.Digest? && checked.value == expected.value {
        ok := EnsureAlias(alias, url);
        return true, if ok then Done(checked.value, true) else Failed(Io);
      }
      ok := CheckFile(EntryOf(incompletes, url));
      if !ok {
        return true, outcome;
      }
      checked := Checksum(EntryOf(incompletes, url));
      if checked.Digest? && checked.value == expected.value {
        ok := SafePublish(url, alias);
        return true, if ok then Done(checked.value, false) else Failed(Io);
      }
      return false, outcome;
    }

    /** Where the retry loop stands against a server that has everything: a file past the end is never got rid
        of, any other is complete after one attempt or, if it had another digest, restarted by the second. */
    ghost predicate Progress(attempt: nat, start: Entry, now: Entry, blob: string) {
      if attempt == 0 || PastEnd(start, blob) then now == start else attempt == 1 && now == Absent
    }

    /** Fetches one artifact under a policy. Against any server a declared digest guards the final file and
        attempts are bounded; an honest server keeps the file in flight a part of its blob. */
    method FetchArtifact(server: Server, url: string, alias: string, expected: Option<string>, force: bool,
                         ghost blob: string) returns (outcome: Outcome)
      modifies this
      ensures old(requests) <= requests <= old(requests) + MAX_ATTEMPTS
      ensures SameFiles(old(finals), finals, url) && SameFiles(old(incompletes), incompletes, url)
      ensures SameAliases(old(aliases), aliases, alias)
      ensures Vetted(expected, EntryOf(old(finals), url), EntryOf(finals, url))
      ensures outcome.Done? ==> Delivered(url, alias, expected, outcome.sha256)
      ensures Truthful(expected, outcome)
      ensures outcome.Done? && outcome.reused ==>
                !force && expected.Some? && requests == old(requests) && finals == old(finals)
      ensures outcome.Done? && (force || expected.None?) ==> requests > old(requests)
      ensures reliable && old(Clean(url, alias)) && outcome.Failed? ==> requests == old(requests) + MAX_ATTEMPTS
      ensures Honest(server, url, blob) && IsPart(EntryOf(old(incompletes), url), blob) ==>
                IsPart(EntryOf(incompletes, url), blob)
                && (EntryOf(finals, url) == EntryOf(old(finals), url) || IsPart(EntryOf(finals, url), blob))
      ensures (reliable && old(Clean(url, alias)) && Serves(server, url, blob)
               && (expected.None? || expected.value == digest(blob))) ==>
                (outcome.Done? <==> old(Fetchable(url, expected, force, blob)))
      ensures (reliable && old(Clean(url, alias)) && Serves(server, url, blob) && expected.None? && outcome.Done?) ==>
                EntryOf(finals, url) == File(Completed(EntryOf(old(incompletes), url), blob))
      ensures reliable && old(Clean(url, alias)) && outcome.Failed? ==>
                && FailedFromTo(server, url, old(requests), expected, digest, MAX_ATTEMPTS, EntryOf(old(incompletes), url),
                                EntryOf(incompletes, url))
                && (expected.None? && HonoursRanges(server, url) && Kept(EntryOf(old(incompletes), url)) != "" ==>
                      Kept(EntryOf(old(incompletes), url)) <= Kept(EntryOf(incompletes, url)))
      ensures reliable && old(Clean(url, alias)) && outcome.Done? && requests > old(requests) ==>
                && EntryOf(finals, url).File? && EntryOf(incompletes, url) == Absent
                && ArrivesAfter(server, url, old(requests), expected, digest, requests - old(requests) - 1,
                                EntryOf(old(incompletes), url), EntryOf(finals, url).content)
    {
      hide Honest, HonestReply, IsPart, PastEnd, Completed, Serves, Delivered;
      hide FailedFromTo, FailedOnce, ArrivesAfter, Kept, Arrived, HonoursRanges;
      ghost var start, first, clean := EntryOf(incompletes, url), requests, reliable && Clean(url, alias);
      if !force {
        var finished, early := Reuse(url, alias, expected);
        if finished {
          PartOfFile(start, EntryOf(incompletes, url), blob);
          return early;
        }
      }
      outcome := Failed(BadStatus);
      NoneFailed(server, url, requests, expected, digest, start);
      for attempt := 0 to MAX_ATTEMPTS
        invariant requests <= old(requests) + attempt && requests >= old(requests)
        invariant SameFiles(old(incompletes), incompletes, url)
        invariant finals == old(finals) && aliases == old(aliases)
        invariant outcome.Failed? && Truthful(expected, outcome)
        invariant clean ==> requests == old(requests) + attempt && Clean(url, alias)
        invariant clean ==>
                    FailedFromTo(server, url, first, expected, digest, attempt, start, EntryOf(incompletes, url))
        invariant Honest(server, url, blob) && IsPart(start, blob) ==> IsPart(EntryOf(incompletes, url), blob)
        invariant (clean && Serves(server, url, blob)
                   && (expected.None? || expected.value == digest(blob))) ==>
                    Progress(attempt, start, EntryOf(incompletes, url), blob)
                    && (attempt > 0 && !PastEnd(start, blob) ==> expected.Some?)
      {
        ghost var last, n := EntryOf(incompletes, url), requests;
        assert clean ==> n == first + attempt;
        var finished, tried := TryArtifact(server, url, alias, expected, blob);
        AbsentRestarts(blob);
        outcome := tried;
        if finished {
          if outcome.Done? && clean {
            ArrivesNow(server, url, first, expected, digest, attempt, start, last, EntryOf(finals, url).content);
          }
          return;
        }
        if clean {
          OneMoreFailed(server, url, first, expected, digest, attempt, start, last, EntryOf(incompletes, url));
        }
      }
      if clean && expected.None? {
        ResumesAfterFailures(server, url, first, digest, MAX_ATTEMPTS, start, EntryOf(incompletes, url));
      }
    }

    // ----- bottles -----

    /** Checks a bottle that arrived in full, then publishes it or throws it away. */
    method SettleBottle(url: string, alias: string, sha256: string) returns (finished: bool, outcome: Outcome)
      modifies this`finals, this`incompletes, this`aliases
      ensures SameFiles(old(finals), finals, url) && SameFiles(old(incompletes), incompletes, url)
      ensures SameAliases(old(aliases), aliases, alias)
      ensures Vetted(Some(sha256), EntryOf(old(finals), url), EntryOf(finals, url))
      ensures EntryOf(finals, url) == EntryOf(old(finals), url) || EntryOf(finals, url) == EntryOf(old(incompletes), url)
      ensures EntryOf(incompletes, url) == EntryOf(old(incompletes), url) || EntryOf(incompletes, url) == Absent
      ensures !finished ==> outcome.Failed? && finals == old(finals) && aliases == old(aliases)
      ensures Truthful(Some(sha256), outcome)
      ensures outcome.Done? ==> finished && outcome == Done(sha256, false)
                                && Delivered(url, alias, Some(sha256), sha256)
                                && EntryOf(finals, url) == EntryOf(old(incompletes), url)
                                && EntryOf(incompletes, url) == Absent
      ensures (reliable && old(Clean(url, alias)) && EntryOf(old(incompletes), url).File?) ==>
                if digest(EntryOf(old(incompletes), url).content) != sha256 then
                  && !finished && EntryOf(incompletes, url) == Absent
                  && outcome == Failed(Mismatch(digest(EntryOf(old(incompletes), url).content)))
                else outcome.Done?
    {
      var checked := Checksum(EntryOf(incompletes, url));
      if checked.Digest? && checked.value == sha256 {
        var ok := Publish(url, alias);
        return true, if ok then Done(sha256, false) else Failed(Io);
      }
      DiscardIncomplete(url);
      return false, Failed(if checked.Digest? then Mismatch(checked.value) else Io);
    }

    method TryBottle(server: Server, origin: string, url: string, alias: string, sha256: string, ghost blob: string)
      returns (finished: bool, outcome: Outcome)
      modifies this
      ensures old(requests) <= requests <= old(requests) + 1
      ensures SameFiles(old(finals), finals, url) && SameFiles(old(incompletes), incompletes, url)
      ensures SameAliases(old(aliases), aliases, alias)
      ensures Vetted(Some(sha256), EntryOf(old(finals), url), EntryOf(finals, url))
      ensures !finished ==> outcome.Failed? && finals == old(finals) && aliases == old(aliases)
      ensures Truthful(Some(sha256), outcome)
      ensures outcome.Done? ==> finished && outcome == Done(sha256, false)
                                && Delivered(url, alias, Some(sha256), sha256)
      ensures Honest(server, origin, blob) && IsPart(EntryOf(old(incompletes), url), blob) ==>
                IsPart(EntryOf(incompletes, url), blob)
      ensures !EntryOf(old(incompletes), url).Odd? ==> !EntryOf(incompletes, url).Odd?
      ensures (reliable && old(Clean(url, alias)) && Serves(server, origin, blob)) ==>
                var before := EntryOf(old(incompletes), url);
                if PastEnd(before, blob) then !finished && EntryOf(incompletes, url) == before
                else if digest(Completed(before, blob)) != sha256 then
                  !finished && EntryOf(incompletes, url) == Absent
                else outcome.Done?
      ensures (reliable && old(Clean(url, alias))) ==> (finished ==> outcome.Done?)
      ensures var before := EntryOf(old(incompletes), url);
              var reply := server(old(requests), origin, |Kept(before)|);
              && (reliable && old(Clean(url, alias)) && !finished ==>
                    FailedOnce(before, reply, Some(sha256), digest, EntryOf(incompletes, url))
                    && (Arrived(before, reply).Some? <==> outcome.fault.Mismatch?))
              && (outcome.Done? ==>
                    Arrived(before, reply).Some? && EntryOf(finals, url) == File(Arrived(before, reply).value)
                    && EntryOf(incompletes, url) == Absent)
      ensures reliable && old(Clean(url, alias)) ==> requests == old(requests) + 1 && (!finished ==> Clean(url, alias))
    {
      hide Joined, HonestReply, Received, Arrived, FailedOnce, PastEnd, Completed, Accepted, WholeReply;
      ghost var before := EntryOf(incompletes, url);
      ghost var reply := server(requests, origin, |Kept(before)|);
      var failure := Attempt(server, origin, url);
      ghost var after := EntryOf(incompletes, url);
      if HonestReply(reply, blob) && IsPart(before, blob) {
        HonestReplyKeepsPart(before, reply, after, failure.None?, blob);
      }
      if !before.Odd? && reply == WholeReply(blob, |Kept(before)|) {
        WholeReplyReceived(before, blob, after, failure.None?);
      }
      AttemptLeaves(before, reply, after, failure.None?, Some(sha256), digest);
      if failure.Some? {
        return false, Failed(failure.value);
      }
      finished, outcome := SettleBottle(url, alias, sha256);
      if !finished && reliable && digest(after.content) != sha256 {
        ThrownAway(before, reply, Some(sha256), digest);
      }
    }

    /** All attempts at one origin. */
    method TryOrigin(server: Server, origin: string, url: string, alias: string, sha256: string, ghost blob: string)
      returns (finished: bool, outcome: Outcome)
      modifies this
      ensures old(requests) <= requests <= old(requests) + MAX_ATTEMPTS
      ensures SameFiles(old(finals), finals, url) && SameFiles(old(incompletes), incompletes, url)
      ensures SameAliases(old(aliases), aliases, alias)
      ensures Vetted(Some(sha256), EntryOf(old(finals), url), EntryOf(finals, url))
      ensures !finished ==> outcome.Failed? && finals == old(finals) && aliases == old(aliases)
      ensures Truthful(Some(sha256), outcome)
      ensures outcome.Done? ==> finished && outcome == Done(sha256, false)
                                && Delivered(url, alias, Some(sha256), sha256)
      ensures Honest(server, origin, blob) && IsPart(EntryOf(old(incompletes), url), blob) ==>
                IsPart(EntryOf(incompletes, url), blob)
      ensures !EntryOf(old(incompletes), url).Odd? ==> !EntryOf(incompletes, url).Odd?
      ensures (reliable && old(Clean(url, alias)) && Serves(server, origin, blob) && sha256 == digest(blob)) ==>
                (outcome.Done? <==> !PastEnd(EntryOf(old(incompletes), url), blob))
      ensures (reliable && old(Clean(url, alias))) ==> (finished ==> outcome.Done?)
      ensures reliable && old(Clean(url, alias)) && !finished ==>
                FailedFromTo(server, origin, old(requests), Some(sha256), digest, MAX_ATTEMPTS, EntryOf(old(incompletes), url),
                             EntryOf(incompletes, url))
                && requests == old(requests) + MAX_ATTEMPTS
      ensures reliable && old(Clean(url, alias)) && outcome.Done? ==>
                && requests > old(requests) && EntryOf(finals, url).File? && EntryOf(incompletes, url) == Absent
                && ArrivesAfter(server, origin, old(requests), Some(sha256), digest, requests - old(requests) - 1,
                                EntryOf(old(incompletes), url), EntryOf(finals, url).content)
    {
      hide Honest, HonestReply, IsPart, PastEnd, Completed, Serves, Delivered, FailedFromTo, FailedOnce, ArrivesAfter, Kept, Arrived;
      ghost var start := EntryOf(incompletes, url);
      outcome := Failed(BadStatus);
      NoneFailed(server, origin, requests, Some(sha256), digest, start);
      for attempt := 0 to MAX_ATTEMPTS
        invariant requests <= old(requests) + attempt && requests >= old(requests)
        invariant SameFiles(old(incompletes), incompletes, url)
        invariant finals == old(finals) && aliases == old(aliases)
        invariant outcome.Failed? && Truthful(Some(sha256), outcome)
        invariant reliable && old(Clean(url, alias)) ==>
                    && requests == old(requests) + attempt && Clean(url, alias)
                    && FailedFromTo(server, origin, old(requests), Some(sha256), digest, attempt, start,
                                    EntryOf(incompletes, url))
        invariant Honest(server, origin, blob) && IsPart(start, blob) ==> IsPart(EntryOf(incompletes, url), blob)
        invariant !start.Odd? ==> !EntryOf(incompletes, url).Odd?
        invariant (reliable && old(Clean(url, alias)) && Serves(server, origin, blob) && sha256 == digest(blob)) ==>
                    Progress(attempt, start, EntryOf(incompletes, url), blob)
      {
        AbsentRestarts(blob);
        ghost var last := EntryOf(incompletes, url);
        finished, outcome := TryBottle(server, origin, url, alias, sha256, blob);
        if finished {
          if outcome.Done? && reliable && old(Clean(url, alias)) {
            ArrivesNow(server, origin, old(requests), Some(sha256), digest, attempt, start, last, EntryOf(finals, url).content);
          }
          return;
        }
        if reliable && old(Clean(url, alias)) {
          OneMoreFailed(server, origin, old(requests), Some(sha256), digest, attempt, start, last, EntryOf(incompletes, url));
        }
      }
      finished := false;
    }

    /** Fetches one bottle, from the resolved origin and then from the original one if that differs. */
    method FetchBottle(server: Server, url: string, fallback: Option<string>, alias: string, sha256: string,
                       ghost blob: string) returns (outcome: Outcome)
      modifies this
      ensures old(requests) <= requests <= old(requests) + MAX_ATTEMPTS * (if fallback.Some? then 2 else 1)
      ensures SameFiles(old(finals), finals, url) && SameFiles(old(incompletes), incompletes, url)
      ensures SameAliases(old(aliases), aliases, alias)
      ensures Vetted(Some(sha256), EntryOf(old(finals), url), EntryOf(finals, url))
      ensures Truthful(Some(sha256), outcome)
      ensures outcome.Done? ==> EntryOf(finals, url).File? && digest(EntryOf(finals, url).content) == sha256
      ensures outcome.Done? ==> if outcome.reused
                                then requests == old(requests) && finals == old(finals) && aliases == old(aliases)
                                else AliasOf(aliases, alias) == LinkTo(url)
      ensures (Honest(server, url, blob) && (fallback.Some? ==> Honest(server, fallback.value, blob))
               && IsPart(EntryOf(old(incompletes), url), blob)) ==> IsPart(EntryOf(incompletes, url), blob)
      ensures (reliable && old(Clean(url, alias)) && Serves(server, url, blob) && sha256 == digest(blob)
               && fallback.None?) ==>
                (outcome.Done? <==> old(Fetchable(url, Some(sha256), false, blob)))
      ensures (reliable && old(Clean(url, alias)) && fallback.Some? && Serves(server, fallback.value, blob)
               && sha256 == digest(blob)) ==> outcome.Done?
      ensures reliable && old(Clean(url, alias)) && fallback.None? && outcome.Failed? ==>
                FailedFromTo(server, url, old(requests), Some(sha256), digest, MAX_ATTEMPTS, EntryOf(old(incompletes), url),
                             EntryOf(incompletes, url))
      ensures reliable && old(Clean(url, alias)) && fallback.Some? && outcome.Failed? ==>
                FailedFromTo(server, fallback.value, old(requests) + MAX_ATTEMPTS, Some(sha256), digest, MAX_ATTEMPTS, Absent,
                             EntryOf(incompletes, url))
    {
      hide Honest, HonestReply, IsPart, PastEnd, Serves, FailedFromTo, ArrivesAfter;
      ghost var start := EntryOf(incompletes, url);
      var checked := Checksum(EntryOf(finals, url));
      if checked.Digest? && checked.value == sha256 {
        return Done(sha256, true);
      }
      checked := Checksum(EntryOf(incompletes, url));
      if checked.Digest? && checked.value == sha256 {
        var ok := Publish(url, alias);
        PartOfFile(start, EntryOf(incompletes, url), blob);
        return if ok then Done(sha256, false) else Failed(Io);
      }
      var finished;
      finished, outcome := TryOrigin(server, url, url, alias, sha256, blob);
      if !finished && fallback.Some? {
        ghost var left := EntryOf(incompletes, url);
        DiscardIncomplete(url);
        PartOfFile(left, EntryOf(incompletes, url), blob);
        AbsentRestarts(blob);
        finished, outcome := TryOrigin(server, fallback.value, url, alias, sha256, blob);
      }
    }
  }

  lemma PartOfFile(start: Entry, now: Entry, blob: string)
    ensures (now == start || now == Absent) && IsPart(start, blob) ==> IsPart(now, blob)
  {}

  lemma AbsentRestarts(blob: string)
    ensures !PastEnd(Absent, blob) && Completed(Absent, blob) == blob
  {}
}
