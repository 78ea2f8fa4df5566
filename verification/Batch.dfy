/** Fetching many artifacts: one transfer for each URL, one alias for each request. */
module Batches {
  import opened Text
  import opened Downloads

  datatype Request = Request(url: string, alias: string, sha256: Option<string>)

  datatype Member = Member(index: nat, alias: string, sha256: Option<string>)

  datatype Group = Group(members: seq<Member>, sha256: Option<string>, hasNoCheck: bool)

  datatype Preparation = Prepared(groups: map<string, Group>, count: nat) | Rejected(reason: Rejection)

  datatype Rejection = Malformed(index: nat) | AliasConflict(index: nat) | ChecksumConflict(index: nat)

  // ----- what a preparation has to accept -----

  /** One alias stands for one URL. */
  ghost predicate OneUrlEach(requests: seq<Request>) {
    forall i, j | 0 <= i < |requests| && 0 <= j < |requests| && requests[i].alias == requests[j].alias ::
      requests[i].url == requests[j].url
  }

  /** All digests declared for one URL agree. */
  ghost predicate DigestsAgree(requests: seq<Request>) {
    forall i, j | 0 <= i < |requests| && 0 <= j < |requests| && requests[i].url == requests[j].url
                  && requests[i].sha256.Some? && requests[j].sha256.Some? ::
      requests[i].sha256 == requests[j].sha256
  }

  /** The requests for one URL, in order. */
  function MembersOf(requests: seq<Request>, url: string): (members: seq<Member>)
    ensures forall k | 0 <= k < |members| ::
              members[k].index < |requests|
              && requests[members[k].index] == Request(url, members[k].alias, members[k].sha256)
    ensures forall j, k | 0 <= j < k < |members| :: members[j].index < members[k].index
  {
    if requests == [] then []
    else
      var last := |requests| - 1;
      var r := requests[last];
      MembersOf(requests[..last], url) + if r.url == url then [Member(last, r.alias, r.sha256)] else []
  }

  /** No request of the URL is missing. */
  lemma {:induction false} MembersComplete(requests: seq<Request>, i: nat)
    requires i < |requests|
    ensures Member(i, requests[i].alias, requests[i].sha256) in MembersOf(requests, requests[i].url)
  {
    var last := |requests| - 1;
    if i < last {
      MembersComplete(requests[..last], i);
    }
  }

  /** The group of a URL: its members, the digest they declare, and whether one declares none. */
  ghost predicate IsGroup(requests: seq<Request>, url: string, g: Group) {
    && g.members == MembersOf(requests, url) && g.members != []
    && (g.sha256.Some? <==> exists m | m in g.members :: m.sha256.Some?)
    && (forall m | m in g.members :: m.sha256.Some? ==> m.sha256 == g.sha256)
    && (g.hasNoCheck <==> exists m | m in g.members :: m.sha256.None?)
  }

  ghost predicate IsGrouping(requests: seq<Request>, groups: map<string, Group>) {
    && (forall r | r in requests :: r.url in groups)
    && forall url | url in groups :: IsGroup(requests, url, groups[url])
  }

  ghost predicate IsAliasMap(requests: seq<Request>, byAlias: map<string, string>) {
    && (forall r | r in requests :: r.alias in byAlias && byAlias[r.alias] == r.url)
    && forall a | a in byAlias :: exists r | r in requests :: r.alias == a
  }

  /** The request's URL and names are well-formed and no odd file stands in its way. */
  ghost predicate Admissible(cache: Cache, wellFormed: Request -> bool, r: Request)
    reads cache
  {
    wellFormed(r) && cache.Clean(r.url, r.alias)
  }

  /** Adding a request to the group of its URL; None if it declares another digest than the group. */
  function AddToGroup(groups: map<string, Group>, r: Request, index: nat): Option<Group> {
    var g := if r.url in groups then groups[r.url] else Group([], None, false);
    if r.sha256.Some? && g.sha256.Some? && g.sha256 != r.sha256 then None
    else Some(Group(g.members + [Member(index, r.alias, r.sha256)],
                    if g.sha256.None? then r.sha256 else g.sha256,
                    g.hasNoCheck || r.sha256.None?))
  }

  lemma MembersExtended(requests: seq<Request>, r: Request, url: string)
    ensures MembersOf(requests + [r], url)
         == MembersOf(requests, url) + if r.url == url then [Member(|requests|, r.alias, r.sha256)] else []
  {}

  lemma SomeoneAsks(requests: seq<Request>, url: string)
    ensures MembersOf(requests, url) != [] ==> exists r | r in requests :: r.url == url
  {
    if MembersOf(requests, url) != [] {
      var m := MembersOf(requests, url)[0];
      assert requests[m.index] in requests;
    }
  }

  lemma NoGroupNoMembers(requests: seq<Request>, groups: map<string, Group>, url: string)
    requires IsGrouping(requests, groups) && url !in groups
    ensures MembersOf(requests, url) == []
  {
    SomeoneAsks(requests, url);
  }

  /** A request that fits extends the grouping; one that does not breaks the agreement of the digests. */
  lemma GroupingExtended(requests: seq<Request>, groups: map<string, Group>, r: Request)
    requires IsGrouping(requests, groups)
    ensures var g := AddToGroup(groups, r, |requests|);
            if g.Some? then IsGrouping(requests + [r], groups[r.url := g.value])
            else exists i | 0 <= i < |requests| ::
                   requests[i].url == r.url && requests[i].sha256.Some? && requests[i].sha256 != r.sha256
  {
    hide MembersOf, IsGroup;
    var g := AddToGroup(groups, r, |requests|);
    if g.Some? {
      var after := groups[r.url := g.value];
      forall url | url in after
        ensures IsGroup(requests + [r], url, after[url])
      {
        if url == r.url {
          GroupJoined(requests, groups, r);
        } else {
          GroupKept(requests, r, url, groups[url]);
        }
      }
    } else {
      GroupRefuses(requests, r, groups[r.url]);
    }
  }

  lemma GroupRefuses(requests: seq<Request>, r: Request, g: Group)
    requires IsGroup(requests, r.url, g) && g.sha256.Some? && g.sha256 != r.sha256
    ensures exists i | 0 <= i < |requests| ::
              requests[i].url == r.url && requests[i].sha256.Some? && requests[i].sha256 != r.sha256
  {}

  lemma GroupKept(requests: seq<Request>, r: Request, url: string, g: Group)
    requires IsGroup(requests, url, g) && url != r.url
    ensures IsGroup(requests + [r], url, g)
  {}

  lemma GroupJoined(requests: seq<Request>, groups: map<string, Group>, r: Request)
    requires IsGrouping(requests, groups) && AddToGroup(groups, r, |requests|).Some?
    ensures IsGroup(requests + [r], r.url, AddToGroup(groups, r, |requests|).value)
  {
    hide MembersOf;
    if r.url !in groups {
      NoGroupNoMembers(requests, groups, r.url);
    }
    MembersExtended(requests, r, r.url);
    var before := if r.url in groups then groups[r.url] else Group([], None, false);
    MemberAdded(before.members, Member(|requests|, r.alias, r.sha256));
  }

  lemma MemberAdded(members: seq<Member>, m: Member)
    ensures m in members + [m]
    ensures forall x :: x in members + [m] <==> x in members || x == m
  {}

  /** Accepts a batch exactly if every request is admissible, each alias stands for one URL and all digests
      declared for a URL agree; then groups the requests by URL. */
  method Prepare(cache: Cache, wellFormed: Request -> bool, requests: seq<Request>) returns (p: Preparation)
    ensures p.Prepared? ==>
              && (forall r | r in requests :: Admissible(cache, wellFormed, r))
              && OneUrlEach(requests) && DigestsAgree(requests)
              && IsGrouping(requests, p.groups) && p.count == |requests|
    ensures (cache.reliable && (forall r | r in requests :: Admissible(cache, wellFormed, r))
             && OneUrlEach(requests) && DigestsAgree(requests)) ==> p.Prepared?
  {
    var groups: map<string, Group> := map[];
    var byAlias: map<string, string> := map[];
    for i := 0 to |requests|
      invariant forall r | r in requests[..i] :: Admissible(cache, wellFormed, r)
      invariant IsAliasMap(requests[..i], byAlias) && IsGrouping(requests[..i], groups)
    {
      hide IsAliasMap, IsGrouping;
      var r := requests[i];
      assert requests[..i + 1] == requests[..i] + [r];
      var ok := Inspect(cache, wellFormed, r);
      if !ok {
        return Rejected(Malformed(i));
      }
      AliasMapExtended(requests[..i], byAlias, r);
      if r.alias in byAlias && byAlias[r.alias] != r.url {
        return Rejected(AliasConflict(i));
      }
      byAlias := byAlias[r.alias := r.url];
      GroupingExtended(requests[..i], groups, r);
      var g := AddToGroup(groups, r, i);
      if g.None? {
        return Rejected(ChecksumConflict(i));
      }
      groups := groups[r.url := g.value];
    }
    assert requests[..|requests|] == requests;
    AliasMapIsConsistent(requests, byAlias);
    GroupingAgrees(requests, groups);
    p := Prepared(groups, |requests|);
  }

  method Inspect(cache: Cache, wellFormed: Request -> bool, r: Request) returns (ok: bool)
    ensures ok ==> Admissible(cache, wellFormed, r)
    ensures cache.reliable && Admissible(cache, wellFormed, r) ==> ok
  {
    if !wellFormed(r) {
      return false;
    }
    ok := cache.CheckFile(EntryOf(cache.finals, r.url));
    if ok {
      ok := cache.CheckFile(EntryOf(cache.incompletes, r.url));
    }
    if ok {
      ok := cache.Works();
      ok := ok && AliasOf(cache.aliases, r.alias) != Directory;
    }
  }

  lemma AliasMapExtended(requests: seq<Request>, byAlias: map<string, string>, r: Request)
    requires IsAliasMap(requests, byAlias)
    ensures if r.alias in byAlias && byAlias[r.alias] != r.url
            then exists i | 0 <= i < |requests| :: requests[i].alias == r.alias && requests[i].url != r.url
            else IsAliasMap(requests + [r], byAlias[r.alias := r.url])
  {}

  lemma AliasMapIsConsistent(requests: seq<Request>, byAlias: map<string, string>)
    requires IsAliasMap(requests, byAlias)
    ensures OneUrlEach(requests)
  {}

  lemma GroupingAgrees(requests: seq<Request>, groups: map<string, Group>)
    requires IsGrouping(requests, groups)
    ensures DigestsAgree(requests)
  {
    hide MembersOf;
    forall i | 0 <= i < |requests| && requests[i].sha256.Some?
      ensures requests[i].url in groups && groups[requests[i].url].sha256 == requests[i].sha256
    {
      MembersComplete(requests, i);
      assert requests[i] in requests;
    }
  }

  // ----- the downloads -----

  datatype Artifact = Artifact(url: string, alias: string, sha256: string, reused: bool)

  datatype BatchError = FetchFailed(url: string, fault: Fault) | SharedFailed(url: string) | AliasFailed | MissingSlot

  datatype Slot = Empty | Good(artifact: Artifact) | Bad(error: BatchError)

  datatype BatchResult = Artifacts(all: seq<Artifact>) | BatchFailed(error: BatchError)

  /** The member whose alias the transfer itself publishes under. */
  function Representative(g: Group): (k: nat)
    requires g.members != [] && (g.hasNoCheck ==> exists m | m in g.members :: m.sha256.None?)
    ensures k < |g.members| && (g.hasNoCheck ==> g.members[k].sha256.None?)
  {
    if g.hasNoCheck then FirstNoCheck(g.members) else 0
  }

  function FirstNoCheck(members: seq<Member>): (k: nat)
    requires exists m | m in members :: m.sha256.None?
    ensures k < |members| && members[k].sha256.None?
  {
    if members[0].sha256.None? then 0 else 1 + FirstNoCheck(members[1..])
  }

  /** The files, the aliases and the digest function, as a value. */
  datatype Shelf = Shelf(
    finals: map<string, Entry>,
    incompletes: map<string, Entry>,
    aliases: map<string, Alias>,
    digest: string -> string)

  function ShelfOf(cache: Cache): Shelf
    reads cache
  {
    Shelf(cache.finals, cache.incompletes, cache.aliases, cache.digest)
  }

  /** The published file has the artifact's digest and the one the request declares; the request's own alias
      leads to it. */
  ghost predicate Carries(shelf: Shelf, r: Request, a: Artifact) {
    && a.url == r.url && a.alias == r.alias
    && EntryOf(shelf.finals, r.url).File? && shelf.digest(EntryOf(shelf.finals, r.url).content) == a.sha256
    && (r.sha256.Some? ==> a.sha256 == r.sha256.value)
    && AliasOf(shelf.aliases, r.alias) == LinkTo(r.url)
  }

  /** No earlier request asks for the same URL. */
  predicate IsFirst(requests: seq<Request>, i: nat)
    requires i < |requests|
  {
    forall j | 0 <= j < i :: requests[j].url != requests[i].url
  }

  /** The slot of request `i` once its group is through. */
  ghost predicate Settled(shelf: Shelf, requests: seq<Request>, failures: map<string, Fault>, slots: seq<Slot>, i: nat)
    requires i < |requests| == |slots|
  {
    var r := requests[i];
    if r.url in failures then
      slots[i] == Bad(if IsFirst(requests, i) then FetchFailed(r.url, failures[r.url]) else SharedFailed(r.url))
    else slots[i].Good? && Carries(shelf, r, slots[i].artifact)
  }

  ghost predicate SlotsOfOthers(requests: seq<Request>, url: string, before: seq<Slot>, after: seq<Slot>) {
    |after| == |before| == |requests| && forall i | 0 <= i < |requests| && requests[i].url != url :: after[i] == before[i]
  }

  /** Only aliases of requests for the URL may differ. */
  ghost predicate AliasesOfOthers(requests: seq<Request>, url: string, before: map<string, Alias>, after: map<string, Alias>) {
    forall a | (forall r | r in requests :: r.url == url ==> r.alias != a) :: AliasOf(after, a) == AliasOf(before, a)
  }

  /** The group's first request reports the error, the others only that they shared it. */
  method SpreadFailure(ghost requests: seq<Request>, url: string, g: Group, fault: Fault, slots: seq<Slot>)
    returns (filled: seq<Slot>)
    requires IsGroup(requests, url, g) && |slots| == |requests|
    ensures SlotsOfOthers(requests, url, slots, filled)
    ensures forall i | 0 <= i < |requests| && requests[i].url == url ::
              filled[i] == Bad(if IsFirst(requests, i) then FetchFailed(url, fault) else SharedFailed(url))
  {
    hide MembersOf, IsFirst;
    filled := slots;
    for k := 0 to |g.members|
      invariant SlotsOfOthers(requests, url, slots, filled)
      invariant forall j | 0 <= j < k ::
                  filled[g.members[j].index] == Bad(if j == 0 then FetchFailed(url, fault) else SharedFailed(url))
    {
      filled := filled[g.members[k].index := Bad(if k == 0 then FetchFailed(url, fault) else SharedFailed(url))];
    }
    forall i | 0 <= i < |requests| && requests[i].url == url
      ensures exists j | 0 <= j < |g.members| :: g.members[j].index == i && (IsFirst(requests, i) <==> j == 0)
    {
      var j := MemberFor(requests, i);
    }
  }

  /** The member of a request, which is the first of its group exactly if the request is the first for its URL. */
  lemma MemberFor(requests: seq<Request>, i: nat) returns (j: nat)
    requires i < |requests|
    ensures var members := MembersOf(requests, requests[i].url);
            j < |members| && members[j] == Member(i, requests[i].alias, requests[i].sha256)
            && (IsFirst(requests, i) <==> j == 0)
  {
    hide MembersOf;
    var members := MembersOf(requests, requests[i].url);
    MembersComplete(requests, i);
    j :| 0 <= j < |members| && members[j] == Member(i, requests[i].alias, requests[i].sha256);
    if j == 0 {
      forall e | 0 <= e < i
        ensures requests[e].url != requests[i].url
      {
        MembersComplete(requests, e);
        assert forall k | 0 <= k < |members| :: members[k].index != e;
      }
    } else {
      assert requests[members[0].index].url == requests[i].url;
    }
  }

  lemma SlotSet(requests: seq<Request>, url: string, first: seq<Slot>, before: seq<Slot>, i: nat, slot: Slot)
    requires SlotsOfOthers(requests, url, first, before) && i < |requests| && requests[i].url == url
    ensures SlotsOfOthers(requests, url, first, before[i := slot])
  {}

  lemma AliasSet(requests: seq<Request>, url: string, first: map<string, Alias>, before: map<string, Alias>,
                 after: map<string, Alias>, i: nat)
    requires AliasesOfOthers(requests, url, first, before) && i < |requests| && requests[i].url == url
    requires SameAliases(before, after, requests[i].alias)
    ensures AliasesOfOthers(requests, url, first, after)
  {}

  /** Links one member's alias, unless the transfer itself did. */
  method LinkMember(cache: Cache, ghost requests: seq<Request>, url: string, g: Group, rep: nat, k: nat) returns (ok: bool)
    requires IsGroup(requests, url, g) && rep < |g.members| && k < |g.members|
    requires AliasOf(cache.aliases, g.members[rep].alias) == LinkTo(url)
    modifies cache`aliases
    ensures AliasesOfOthers(requests, url, old(cache.aliases), cache.aliases)
    ensures SameAliases(old(cache.aliases), cache.aliases, g.members[k].alias)
    ensures ok ==> AliasOf(cache.aliases, g.members[k].alias) == LinkTo(url)
    ensures cache.reliable && AliasOf(old(cache.aliases), g.members[k].alias) != Directory ==> ok
  {
    hide MembersOf;
    var m := g.members[k];
    if m.index != g.members[rep].index {
      ok := cache.EnsureAlias(m.alias, url);
      AliasSet(requests, url, old(cache.aliases), old(cache.aliases), cache.aliases, m.index);
    } else {
      assert requests[m.index].alias == m.alias == g.members[rep].alias;
      ok := true;
    }
  }

  /** Every request of the group gets the artifact under its own alias. */
  method FanOut(cache: Cache, ghost requests: seq<Request>, url: string, g: Group, rep: nat, sha256: string,
                reused: bool, slots: seq<Slot>) returns (ok: bool, filled: seq<Slot>)
    requires IsGroup(requests, url, g) && |slots| == |requests| && rep < |g.members|
    requires cache.Delivered(url, g.members[rep].alias, g.sha256, sha256)
    modifies cache`aliases
    ensures SlotsOfOthers(requests, url, slots, filled)
    ensures AliasesOfOthers(requests, url, old(cache.aliases), cache.aliases)
    ensures ok ==> forall i | 0 <= i < |requests| && requests[i].url == url ::
              filled[i].Good? && Carries(ShelfOf(cache), requests[i], filled[i].artifact)
    ensures cache.reliable && (forall m | m in g.members :: AliasOf(old(cache.aliases), m.alias) != Directory) ==> ok
  {
    hide MembersOf, SlotsOfOthers, AliasesOfOthers, Carries;
    filled := slots;
    NothingChanged(requests, url, slots, cache.aliases);
    for k := 0 to |g.members|
      invariant |filled| == |requests| && SlotsOfOthers(requests, url, slots, filled)
      invariant AliasesOfOthers(requests, url, old(cache.aliases), cache.aliases)
      invariant AliasOf(cache.aliases, g.members[rep].alias) == LinkTo(url)
      invariant forall j | k <= j < |g.members| ::
                  var now := AliasOf(cache.aliases, g.members[j].alias);
                  now == LinkTo(url) || now == AliasOf(old(cache.aliases), g.members[j].alias)
      invariant forall j | 0 <= j < k ::
                  AliasOf(cache.aliases, g.members[j].alias) == LinkTo(url)
                  && filled[g.members[j].index] == Good(Artifact(url, g.members[j].alias, sha256, reused))
    {
      var m := g.members[k];
      ghost var before := cache.aliases;
      ok := LinkMember(cache, requests, url, g, rep, k);
      AliasesThen(requests, url, old(cache.aliases), before, cache.aliases);
      if !ok {
        return;
      }
      SlotSet(requests, url, slots, filled, m.index, Good(Artifact(url, m.alias, sha256, reused)));
      filled := filled[m.index := Good(Artifact(url, m.alias, sha256, reused))];
    }
    ok := true;
    MembersCarry(cache, requests, url, g, filled, sha256, reused);
  }

  lemma MembersCarry(cache: Cache, requests: seq<Request>, url: string, g: Group, filled: seq<Slot>, sha256: string, reused: bool)
    requires IsGroup(requests, url, g) && |filled| == |requests|
    requires forall j | 0 <= j < |g.members| :: cache.Delivered(url, g.members[j].alias, g.sha256, sha256)
    requires forall j | 0 <= j < |g.members| :: filled[g.members[j].index] == Good(Artifact(url, g.members[j].alias, sha256, reused))
    ensures forall i | 0 <= i < |requests| && requests[i].url == url ::
              filled[i].Good? && Carries(ShelfOf(cache), requests[i], filled[i].artifact)
  {
    hide MembersOf, Carries;
    forall i | 0 <= i < |requests| && requests[i].url == url
      ensures filled[i].Good? && Carries(ShelfOf(cache), requests[i], filled[i].artifact)
    {
      var j := MemberFor(requests, i);
      MemberCarries(cache, requests, url, g, j, filled[i], sha256, reused);
    }
  }

  lemma MemberCarries(cache: Cache, requests: seq<Request>, url: string, g: Group, j: nat, slot: Slot, sha256: string, reused: bool)
    requires IsGroup(requests, url, g) && j < |g.members|
    requires slot == Good(Artifact(url, g.members[j].alias, sha256, reused))
    requires cache.Delivered(url, g.members[j].alias, g.sha256, sha256)
    ensures Carries(ShelfOf(cache), requests[g.members[j].index], slot.artifact)
  {}

  lemma NothingChanged(requests: seq<Request>, url: string, slots: seq<Slot>, aliases: map<string, Alias>)
    requires |slots| == |requests|
    ensures SlotsOfOthers(requests, url, slots, slots) && AliasesOfOthers(requests, url, aliases, aliases)
  {}

  lemma AliasesThen(requests: seq<Request>, url: string, first: map<string, Alias>, before: map<string, Alias>,
                    after: map<string, Alias>)
    requires AliasesOfOthers(requests, url, first, before) && AliasesOfOthers(requests, url, before, after)
    ensures AliasesOfOthers(requests, url, first, after)
  {}

  predicate SameAt(before: Shelf, after: Shelf, url: string) {
    EntryOf(after.finals, url) == EntryOf(before.finals, url)
    && EntryOf(after.incompletes, url) == EntryOf(before.incompletes, url)
  }

  /** Nothing outside the batch is touched. */
  ghost predicate OnlyRequested(requests: seq<Request>, before: Shelf, after: Shelf) {
    && (forall u | (forall r | r in requests :: r.url != u) ::
          EntryOf(after.finals, u) == EntryOf(before.finals, u) && EntryOf(after.incompletes, u) == EntryOf(before.incompletes, u))
    && (forall a | (forall r | r in requests :: r.alias != a) :: AliasOf(after.aliases, a) == AliasOf(before.aliases, a))
  }

  /** One group went through: its own file and aliases are all that may differ. */
  ghost predicate OnlyGroup(requests: seq<Request>, url: string, before: Shelf, after: Shelf) {
    && after.digest == before.digest
    && SameFiles(before.finals, after.finals, url) && SameFiles(before.incompletes, after.incompletes, url)
    && AliasesOfOthers(requests, url, before.aliases, after.aliases)
  }

  lemma OthersStaySettled(requests: seq<Request>, url: string, before: Shelf, after: Shelf,
                          failures: map<string, Fault>, fault: Option<Fault>,
                          slots: seq<Slot>, filled: seq<Slot>, i: nat)
    requires OneUrlEach(requests) && OnlyGroup(requests, url, before, after)
    requires SlotsOfOthers(requests, url, slots, filled) && i < |requests| && requests[i].url != url
    requires Settled(before, requests, failures, slots, i)
    ensures Settled(after, requests, if fault.Some? then failures[url := fault.value] else failures, filled, i)
  {}

  /** A request for another URL has an alias no request for this one has. */
  lemma OwnAlias(requests: seq<Request>, url: string, i: nat)
    requires OneUrlEach(requests) && i < |requests| && requests[i].url != url
    ensures forall r | r in requests :: r.url == url ==> r.alias != requests[i].alias
  {}

  /** The server has all of the blob, and a digest declared for it is right. */
  ghost predicate Served(cache: Cache, server: Server, url: string, g: Group, blob: string) {
    Serves(server, url, blob) && (g.sha256.Some? ==> g.sha256.value == cache.digest(blob))
  }

  /** What a caller can check beforehand: the files of the group at hand do not keep it from being fetched. */
  predicate GroupObtainable(cache: Cache, shelf: Shelf, url: string, g: Group, blob: string) {
    cache.Obtainable(EntryOf(shelf.finals, url), EntryOf(shelf.incompletes, url), g.sha256, g.hasNoCheck, blob)
  }

  /** Nothing stands in the way of publishing the group under its aliases. */
  predicate GroupClean(shelf: Shelf, url: string, g: Group) {
    && !EntryOf(shelf.finals, url).Odd? && !EntryOf(shelf.incompletes, url).Odd?
    && forall m | m in g.members :: AliasOf(shelf.aliases, m.alias) != Directory
  }

  /** Transfers one group and fills its slots. It gives up only after all attempts, and against a server that has
      everything it fails exactly if the files at hand keep it from being fetched. */
  method RunGroup(cache: Cache, server: Server, requests: seq<Request>, url: string, g: Group, slots: seq<Slot>,
                  ghost blob: string)
    returns (aliased: bool, fault: Option<Fault>, filled: seq<Slot>)
    requires IsGroup(requests, url, g) && |slots| == |requests|
    modifies cache
    ensures old(cache.requests) <= cache.requests <= old(cache.requests) + MAX_ATTEMPTS
    ensures OnlyGroup(requests, url, old(ShelfOf(cache)), ShelfOf(cache))
    ensures SlotsOfOthers(requests, url, slots, filled)
    ensures aliased ==> forall i | 0 <= i < |requests| && requests[i].url == url ::
              Settled(ShelfOf(cache), requests, if fault.Some? then map[url := fault.value] else map[], filled, i)
    ensures (cache.reliable && forall m | m in g.members :: AliasOf(old(cache.aliases), m.alias) != Directory) ==> aliased
    ensures cache.reliable && old(GroupClean(ShelfOf(cache), url, g)) && fault.Some? ==>
              cache.requests == old(cache.requests) + MAX_ATTEMPTS
    ensures cache.reliable && old(GroupClean(ShelfOf(cache), url, g)) && Served(cache, server, url, g, blob) ==>
              (fault.Some? <==> !old(GroupObtainable(cache, ShelfOf(cache), url, g, blob)))
  {
    hide MembersOf, IsFirst, Serves;
    var rep := Representative(g);
    var alias := g.members[rep].alias;
    assert requests[g.members[rep].index] == Request(url, alias, g.members[rep].sha256);
    var outcome := cache.FetchArtifact(server, url, alias, g.sha256, g.hasNoCheck, blob);
    if outcome.Failed? {
      filled := SpreadFailure(requests, url, g, outcome.fault, slots);
      return true, Some(outcome.fault), filled;
    }
    ghost var fetched := cache.aliases;
    aliased, filled := FanOut(cache, requests, url, g, rep, outcome.sha256, outcome.reused, slots);
    fault := None;
  }

  lemma OtherAliasesStay(requests: seq<Request>, url: string, before: Shelf, after: Shelf)
    requires OneUrlEach(requests) && OnlyGroup(requests, url, before, after)
    ensures forall i | 0 <= i < |requests| && requests[i].url != url ::
              AliasOf(after.aliases, requests[i].alias) == AliasOf(before.aliases, requests[i].alias)
  {
    forall i | 0 <= i < |requests| && requests[i].url != url
      ensures AliasOf(after.aliases, requests[i].alias) == AliasOf(before.aliases, requests[i].alias)
    {
      OwnAlias(requests, url, i);
    }
  }

  /** A group that is through touched nothing outside the batch and no alias of another group. */
  lemma GroupDone(requests: seq<Request>, groups: map<string, Group>, url: string, first: Shelf, before: Shelf, after: Shelf)
    requires OneUrlEach(requests) && IsGrouping(requests, groups) && url in groups
    requires OnlyRequested(requests, first, before) && OnlyGroup(requests, url, before, after)
    ensures OnlyRequested(requests, first, after)
    ensures forall i | 0 <= i < |requests| && requests[i].url != url ::
              AliasOf(after.aliases, requests[i].alias) == AliasOf(before.aliases, requests[i].alias)
  {
    hide MembersOf, OneUrlEach;
    var m := groups[url].members[0];
    assert requests[m.index] in requests && requests[m.index].url == url;
    OtherAliasesStay(requests, url, before, after);
  }

  lemma SettledAlone(shelf: Shelf, requests: seq<Request>, failures: map<string, Fault>, fault: Option<Fault>,
                     slots: seq<Slot>, i: nat)
    requires i < |requests| == |slots| && requests[i].url !in failures
    requires Settled(shelf, requests, if fault.Some? then map[requests[i].url := fault.value] else map[], slots, i)
    ensures Settled(shelf, requests, if fault.Some? then failures[requests[i].url := fault.value] else failures, slots, i)
  {}

  lemma SettledMeans(shelf: Shelf, requests: seq<Request>, failures: map<string, Fault>, slots: seq<Slot>, i: nat)
    requires i < |requests| == |slots| && Settled(shelf, requests, failures, slots, i)
    requires forall j | 0 <= j < i :: requests[j].url !in failures
    ensures if requests[i].url in failures
            then slots[i] == Bad(FetchFailed(requests[i].url, failures[requests[i].url]))
            else slots[i].Good? && Carries(shelf, requests[i], slots[i].artifact)
  {}

  /** Reads the slots in order: all artifacts, or the first error. */
  method Collect(ghost shelf: Shelf, ghost requests: seq<Request>, ghost failures: map<string, Fault>, slots: seq<Slot>)
    returns (result: BatchResult)
    requires |slots| == |requests|
    requires forall i | 0 <= i < |requests| :: Settled(shelf, requests, failures, slots, i)
    ensures result.Artifacts? ==>
              && |result.all| == |requests|
              && (forall i | 0 <= i < |requests| :: requests[i].url !in failures)
              && forall i | 0 <= i < |requests| :: Carries(shelf, requests[i], result.all[i])
    ensures result.BatchFailed? ==>
              && result.error.FetchFailed? && result.error.url in failures
              && failures[result.error.url] == result.error.fault
              && exists i | 0 <= i < |requests| :: requests[i].url == result.error.url
                   && forall j | 0 <= j < i :: requests[j].url !in failures && exists a :: Carries(shelf, requests[j], a)
  {
    hide Settled, Carries;
    var all: seq<Artifact> := [];
    for i := 0 to |slots|
      invariant |all| == i
      invariant forall j | 0 <= j < i :: requests[j].url !in failures && Carries(shelf, requests[j], all[j])
    {
      SettledMeans(shelf, requests, failures, slots, i);
      if !slots[i].Good? {
        return BatchFailed(if slots[i].Bad? then slots[i].error else MissingSlot);
      }
      all := all + [slots[i].artifact];
    }
    return Artifacts(all);
  }

  /** All requests but those of waiting groups are settled; the aliases of the waiting ones are as they were. */
  ghost predicate Progressed(requests: seq<Request>, first: Shelf, shelf: Shelf, failures: map<string, Fault>,
                             slots: seq<Slot>, waiting: set<string>) {
    && |slots| == |requests|
    && OnlyRequested(requests, first, shelf)
    && failures.Keys !! waiting
    && (forall i | 0 <= i < |requests| && requests[i].url !in waiting :: Settled(shelf, requests, failures, slots, i))
    && forall i | 0 <= i < |requests| && requests[i].url in waiting ::
         AliasOf(shelf.aliases, requests[i].alias) == AliasOf(first.aliases, requests[i].alias)
  }

  lemma GroupProgresses(requests: seq<Request>, groups: map<string, Group>, url: string, first: Shelf, before: Shelf,
                        after: Shelf, failures: map<string, Fault>, fault: Option<Fault>, slots: seq<Slot>,
                        filled: seq<Slot>, waiting: set<string>)
    requires OneUrlEach(requests) && IsGrouping(requests, groups) && url in waiting && waiting <= groups.Keys
    requires Progressed(requests, first, before, failures, slots, waiting)
    requires OnlyGroup(requests, url, before, after) && SlotsOfOthers(requests, url, slots, filled)
    requires forall i | 0 <= i < |requests| && requests[i].url == url ::
               Settled(after, requests, if fault.Some? then map[url := fault.value] else map[], filled, i)
    ensures Progressed(requests, first, after, if fault.Some? then failures[url := fault.value] else failures,
                       filled, waiting - {url})
  {
    hide MembersOf, IsFirst, Carries, Settled, OneUrlEach, OnlyGroup, IsGrouping, OnlyRequested;
    GroupDone(requests, groups, url, first, before, after);
    var failures' := if fault.Some? then failures[url := fault.value] else failures;
    forall i | 0 <= i < |requests| && requests[i].url !in waiting - {url}
      ensures Settled(after, requests, failures', filled, i)
    {
      if requests[i].url == url {
        SettledAlone(after, requests, failures, fault, filled, i);
      } else {
        OthersStaySettled(requests, url, before, after, failures, fault, slots, filled, i);
      }
    }
  }

  lemma WaitingAliases(requests: seq<Request>, groups: map<string, Group>, url: string, first: Shelf, shelf: Shelf,
                       failures: map<string, Fault>, slots: seq<Slot>, waiting: set<string>)
    requires IsGrouping(requests, groups) && url in waiting && waiting <= groups.Keys
    requires Progressed(requests, first, shelf, failures, slots, waiting)
    requires AliasesFree(requests, first)
    ensures forall m | m in groups[url].members :: AliasOf(shelf.aliases, m.alias) != Directory
  {
    hide MembersOf, Settled, OnlyRequested;
    forall m | m in groups[url].members
      ensures AliasOf(shelf.aliases, m.alias) != Directory
    {
      assert requests[m.index] in requests && requests[m.index].url == url;
    }
  }

  predicate AllClean(shelf: Shelf, groups: map<string, Group>) {
    forall url | url in groups :: GroupClean(shelf, url, groups[url])
  }

  /** The files and aliases of the waiting groups are as they were. */
  ghost predicate Untouched(first: Shelf, shelf: Shelf, groups: map<string, Group>, waiting: set<string>) {
    forall url | url in waiting && url in groups ::
      SameAt(first, shelf, url) && forall m | m in groups[url].members :: AliasOf(shelf.aliases, m.alias) == AliasOf(first.aliases, m.alias)
  }

  lemma StaysUntouched(requests: seq<Request>, groups: map<string, Group>, url: string, first: Shelf, before: Shelf,
                       after: Shelf, waiting: set<string>)
    requires OneUrlEach(requests) && IsGrouping(requests, groups) && url in groups
    requires Untouched(first, before, groups, waiting) && OnlyGroup(requests, url, before, after)
    ensures Untouched(first, after, groups, waiting - {url})
  {
    hide MembersOf;
    forall u | u in waiting - {url} && u in groups
      ensures SameAt(first, after, u)
      ensures forall m | m in groups[u].members :: AliasOf(after.aliases, m.alias) == AliasOf(first.aliases, m.alias)
    {
      forall m | m in groups[u].members
        ensures AliasOf(after.aliases, m.alias) == AliasOf(first.aliases, m.alias)
      {
        OwnAlias(requests, url, m.index);
      }
    }
  }

  /** A waiting group is as clean and as obtainable as at the start. */
  lemma WaitingAsBefore(cache: Cache, groups: map<string, Group>, url: string, first: Shelf, shelf: Shelf,
                        waiting: set<string>, blob: string)
    requires Untouched(first, shelf, groups, waiting) && url in waiting && url in groups
    ensures GroupClean(shelf, url, groups[url]) == GroupClean(first, url, groups[url])
    ensures GroupObtainable(cache, shelf, url, groups[url], blob) == GroupObtainable(cache, first, url, groups[url], blob)
  {}

  lemma CleanAliases(requests: seq<Request>, first: Shelf, groups: map<string, Group>)
    requires IsGrouping(requests, groups) && AllClean(first, groups)
    ensures AliasesFree(requests, first)
  {
    hide MembersOf, IsGrouping;
    forall r | r in requests
      ensures AliasOf(first.aliases, r.alias) != Directory
    {
      var i :| 0 <= i < |requests| && requests[i] == r;
      MembersComplete(requests, i);
      AliasClean(requests, first, groups, r);
    }
  }

  lemma AliasClean(requests: seq<Request>, first: Shelf, groups: map<string, Group>, r: Request)
    requires IsGrouping(requests, groups) && AllClean(first, groups) && r in requests
    requires exists m | m in MembersOf(requests, r.url) :: m.alias == r.alias
    ensures AliasOf(first.aliases, r.alias) != Directory
  {
    hide MembersOf;
    assert GroupClean(first, r.url, groups[r.url]);
  }

  lemma NothingFailed(cache: Cache, server: Server, requests: seq<Request>, first: Shelf, groups: map<string, Group>, blobs: string -> string)
    requires IsGrouping(requests, groups)
    ensures Untouched(first, first, groups, groups.Keys)
    ensures Accounted(cache, server, first, groups, blobs, map[], groups.Keys)
    ensures AllClean(first, groups) ==> AliasesFree(requests, first)
  {
    hide IsGrouping, AliasesFree;
    if AllClean(first, groups) {
      CleanAliases(requests, first, groups);
    }
  }

  lemma EveryGroupIsAsked(requests: seq<Request>, groups: map<string, Group>, url: string)
    requires IsGrouping(requests, groups) && url in groups
    ensures exists i | 0 <= i < |requests| :: requests[i].url == url
  {
    var m := groups[url].members[0];
    assert requests[m.index].url == url;
  }

  /** A group that is through has failed, if its server has everything, exactly if it was unobtainable. What the
      servers of other groups do makes no difference. */
  ghost predicate Accounted(cache: Cache, server: Server, first: Shelf, groups: map<string, Group>,
                            blobs: string -> string, failures: map<string, Fault>, waiting: set<string>) {
    && failures.Keys <= groups.Keys - waiting
    && forall url | url in groups && url !in waiting && MustSettle(cache, server, first, url, groups[url], blobs(url)) ::
         url in failures <==> !GroupObtainable(cache, first, url, groups[url], blobs(url))
  }

  /** Nothing but the files at hand decides whether the group can be fetched. */
  ghost predicate MustSettle(cache: Cache, server: Server, first: Shelf, url: string, g: Group, blob: string)
  {
    cache.reliable && GroupClean(first, url, g) && Served(cache, server, url, g, blob)
  }

  lemma AccountedNext(cache: Cache, server: Server, first: Shelf, shelf: Shelf, groups: map<string, Group>,
                      blobs: string -> string, failures: map<string, Fault>, fault: Option<Fault>, waiting: set<string>,
                      url: string)
    requires Accounted(cache, server, first, groups, blobs, failures, waiting) && url in waiting && url in groups
    requires Untouched(first, shelf, groups, waiting)
    requires cache.reliable && GroupClean(shelf, url, groups[url]) && Served(cache, server, url, groups[url], blobs(url)) ==>
               (fault.Some? <==> !GroupObtainable(cache, shelf, url, groups[url], blobs(url)))
    ensures Accounted(cache, server, first, groups, blobs,
                      if fault.Some? then failures[url := fault.value] else failures, waiting - {url})
  {
    hide Untouched, GroupClean, GroupObtainable, Served;
    WaitingAsBefore(cache, groups, url, first, shelf, waiting, blobs(url));
  }

  /** Runs one of the waiting groups. */
  method TakeGroup(cache: Cache, server: Server, requests: seq<Request>, groups: map<string, Group>, url: string,
                   slots: seq<Slot>, failures: map<string, Fault>, ghost first: Shelf, ghost waiting: set<string>,
                   ghost blobs: string -> string)
    returns (aliased: bool, failed: map<string, Fault>, filled: seq<Slot>)
    requires OneUrlEach(requests) && IsGrouping(requests, groups) && url in groups && url in waiting && waiting <= groups.Keys
    requires Progressed(requests, first, ShelfOf(cache), failures, slots, waiting) && |slots| == |requests|
    requires Untouched(first, ShelfOf(cache), groups, waiting)
    requires Accounted(cache, server, first, groups, blobs, failures, waiting)
    modifies cache
    ensures old(cache.requests) <= cache.requests <= old(cache.requests) + MAX_ATTEMPTS
    ensures |filled| == |requests| && OnlyRequested(requests, first, ShelfOf(cache))
    ensures !aliased ==> failed == failures && !(cache.reliable && AliasesFree(requests, first))
    ensures aliased ==>
              && Progressed(requests, first, ShelfOf(cache), failed, filled, waiting - {url})
              && Untouched(first, ShelfOf(cache), groups, waiting - {url})
              && Accounted(cache, server, first, groups, blobs, failed, waiting - {url})
    ensures failed == failures || (url !in failures && failed.Keys == failures.Keys + {url})
    ensures cache.reliable && AllClean(first, groups) && failed != failures ==>
              cache.requests == old(cache.requests) + MAX_ATTEMPTS
  {
    hide MembersOf, IsFirst, Carries, Settled, OneUrlEach, OnlyGroup, IsGrouping, Progressed, OnlyRequested, SlotsOfOthers,
      Untouched, Served, GroupClean, GroupObtainable, Accounted, AliasesFree;
    GroupAt(requests, groups, url);
    ghost var before := ShelfOf(cache);
    WaitingAsBefore(cache, groups, url, first, before, waiting, blobs(url));
    NotYetFailed(cache, server, first, groups, blobs, failures, waiting, url);
    if AliasesFree(requests, first) {
      WaitingAliases(requests, groups, url, first, before, failures, slots, waiting);
    }
    var fault;
    aliased, fault, filled := RunGroup(cache, server, requests, url, groups[url], slots, blobs(url));
    ProgressedOutside(requests, first, before, failures, slots, waiting);
    GroupDone(requests, groups, url, first, before, ShelfOf(cache));
    SameLength(requests, url, slots, filled);
    if !aliased {
      return false, failures, filled;
    }
    GroupProgresses(requests, groups, url, first, before, ShelfOf(cache), failures, fault, slots, filled, waiting);
    StaysUntouched(requests, groups, url, first, before, ShelfOf(cache), waiting);
    AccountedNext(cache, server, first, before, groups, blobs, failures, fault, waiting, url);
    failed := if fault.Some? then failures[url := fault.value] else failures;
  }

  predicate AliasesFree(requests: seq<Request>, shelf: Shelf) {
    forall r | r in requests :: AliasOf(shelf.aliases, r.alias) != Directory
  }

  lemma NotYetFailed(cache: Cache, server: Server, first: Shelf, groups: map<string, Group>, blobs: string -> string,
                     failures: map<string, Fault>, waiting: set<string>, url: string)
    requires Accounted(cache, server, first, groups, blobs, failures, waiting) && url in waiting
    ensures url !in failures
  {}

  /** Runs the groups in whatever order they come through. Every request's slot is filled once, with its own
      URL's content and its own alias, however the groups are ordered; if groups failed and no alias did, the
      error is the one of the failed group that has the earliest request. */
  method DownloadArtifacts(cache: Cache, server: Server, requests: seq<Request>, groups: map<string, Group>,
                           ghost blobs: string -> string)
    returns (result: BatchResult, failures: map<string, Fault>)
    requires OneUrlEach(requests) && IsGrouping(requests, groups)
    modifies cache
    ensures cache.requests <= old(cache.requests) + MAX_ATTEMPTS * |groups|
    ensures OnlyRequested(requests, old(ShelfOf(cache)), ShelfOf(cache))
    ensures result.Artifacts? ==>
              && |result.all| == |requests| && (forall i | 0 <= i < |requests| :: requests[i].url !in failures)
              && forall i | 0 <= i < |requests| :: Carries(ShelfOf(cache), requests[i], result.all[i])
    ensures result.BatchFailed? ==> result.error.AliasFailed? || result.error.FetchFailed?
    ensures result.BatchFailed? && result.error.FetchFailed? ==>
              && result.error.url in failures && failures[result.error.url] == result.error.fault
              && exists i | 0 <= i < |requests| :: requests[i].url == result.error.url
                   && forall j | 0 <= j < i ::
                        requests[j].url !in failures && exists a :: Carries(ShelfOf(cache), requests[j], a)
    ensures cache.reliable && old(AliasesFree(requests, ShelfOf(cache))) ==> result != BatchFailed(AliasFailed)
    ensures cache.reliable && old(AllClean(ShelfOf(cache), groups)) ==>
              cache.requests >= old(cache.requests) + MAX_ATTEMPTS * |failures|
    ensures failures.Keys <= groups.Keys
    ensures cache.reliable && old(AliasesFree(requests, ShelfOf(cache))) ==>
              && (result.Artifacts? <==> failures.Keys == {})
              && Accounted(cache, server, old(ShelfOf(cache)), groups, blobs, failures, {})
  {
    hide MembersOf, IsFirst, Carries, Settled, OneUrlEach, IsGrouping, Progressed, OnlyRequested, Untouched, GroupClean,
      Accounted, AliasesFree;
    failures := map[];
    var slots := seq(|requests|, _ => Empty);
    var waiting := groups.Keys;
    ghost var first := ShelfOf(cache);
    NothingProgressed(requests, groups, first, slots);
    NothingFailed(cache, server, requests, first, groups, blobs);
    while waiting != {}
      invariant waiting <= groups.Keys && |slots| == |requests| && failures.Keys <= groups.Keys
      invariant cache.requests + MAX_ATTEMPTS * |waiting| <= old(cache.requests) + MAX_ATTEMPTS * |groups|
      invariant Progressed(requests, first, ShelfOf(cache), failures, slots, waiting)
      invariant Untouched(first, ShelfOf(cache), groups, waiting)
      invariant Accounted(cache, server, first, groups, blobs, failures, waiting)
      invariant cache.reliable && AllClean(first, groups) ==> cache.requests >= old(cache.requests) + MAX_ATTEMPTS * |failures|
      decreases |waiting|
    {
      var url :| url in waiting;
      ghost var known := failures.Keys;
      var aliased;
      aliased, failures, slots := TakeGroup(cache, server, requests, groups, url, slots, failures, first, waiting, blobs);
      if !aliased {
        return BatchFailed(AliasFailed), failures;
      }
      assert failures.Keys == known || |failures.Keys| == |known| + 1;
      waiting := waiting - {url};
    }
    ProgressedOutside(requests, first, ShelfOf(cache), failures, slots, waiting);
    result := Collect(ShelfOf(cache), requests, failures, slots);
    AllAccounted(cache, server, requests, first, groups, blobs, failures);
  }

  lemma AllAccounted(cache: Cache, server: Server, requests: seq<Request>, first: Shelf, groups: map<string, Group>,
                     blobs: string -> string, failures: map<string, Fault>)
    requires IsGrouping(requests, groups) && Accounted(cache, server, first, groups, blobs, failures, {})
    ensures failures.Keys == {} <==> forall i | 0 <= i < |requests| :: requests[i].url !in failures
  {
    if url :| url in failures {
      EveryGroupIsAsked(requests, groups, url);
    }
  }

  lemma NothingProgressed(requests: seq<Request>, groups: map<string, Group>, first: Shelf, slots: seq<Slot>)
    requires IsGrouping(requests, groups) && |slots| == |requests|
    ensures Progressed(requests, first, first, map[], slots, groups.Keys)
  {}

  lemma GroupAt(requests: seq<Request>, groups: map<string, Group>, url: string)
    requires IsGrouping(requests, groups) && url in groups
    ensures IsGroup(requests, url, groups[url])
  {}

  lemma ProgressedOutside(requests: seq<Request>, first: Shelf, shelf: Shelf, failures: map<string, Fault>,
                          slots: seq<Slot>, waiting: set<string>)
    requires Progressed(requests, first, shelf, failures, slots, waiting)
    ensures OnlyRequested(requests, first, shelf)
    ensures waiting == {} ==> forall i | 0 <= i < |requests| :: Settled(shelf, requests, failures, slots, i)
  {}

  lemma SameLength(requests: seq<Request>, url: string, before: seq<Slot>, after: seq<Slot>)
    requires SlotsOfOthers(requests, url, before, after)
    ensures |after| == |requests|
  {}

  /** Two successful runs of one batch from the same cache, in whatever orders, leave the same aliases. */
  lemma OrderDoesNotMatter(requests: seq<Request>, first: Shelf, one: Shelf, other: Shelf,
                           all: seq<Artifact>, all': seq<Artifact>)
    requires |all| == |all'| == |requests|
    requires OnlyRequested(requests, first, one) && OnlyRequested(requests, first, other)
    requires forall i | 0 <= i < |requests| :: Carries(one, requests[i], all[i]) && Carries(other, requests[i], all'[i])
    ensures forall a :: AliasOf(one.aliases, a) == AliasOf(other.aliases, a)
  {}
}
