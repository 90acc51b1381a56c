/** Identity lookups of the Discord side of the bridge: the link table from
    Minecraft player UUIDs to Discord user ids, its reverse lookup, the
    guild member a UUID stands for, the member's avatar URL, and the
    UUID-to-name user cache. */
module Identity {
  import opened Wrappers
  import opened JavaStrings

  /** The link table `discord.json`: (player UUID, Discord user id) pairs in
      the order of the file. */
  type LinkTable = seq<(string, string)>

  /** A JSON object never repeats a key. */
  predicate KeysDistinct(links: LinkTable) {
    forall i, j | 0 <= i < j < |links| :: links[i].0 != links[j].0
  }

  /** The table has an entry for `uuid`. */
  predicate Linked(links: LinkTable, uuid: string) {
    exists i | 0 <= i < |links| :: links[i].0 == uuid
  }

  /** `getDiscordIdFromUUID`: the Discord id recorded for `uuid`, if any. */
  function DiscordIdOf(links: LinkTable, uuid: string): (r: Option<string>)
    ensures r.Some? <==> Linked(links, uuid)
    ensures r.Some? ==> exists i | 0 <= i < |links| :: links[i] == (uuid, r.value)
    decreases |links|
  {
    if |links| == 0 then None
    else if links[0].0 == uuid then Some(links[0].1)
    else DiscordIdOf(links[1..], uuid)
  }

  /** The reverse lookup of `onMessageReceived`: the first UUID, in table
      order, whose Discord id is `discordId`. */
  function PlayerIdOf(links: LinkTable, discordId: string): (r: Option<string>)
    ensures r.Some? <==> exists i | 0 <= i < |links| :: links[i].1 == discordId
    ensures r.Some? ==>
      exists i | 0 <= i < |links| ::
        links[i] == (r.value, discordId) && forall j | 0 <= j < i :: links[j].1 != discordId
    decreases |links|
  {
    if |links| == 0 then None
    else if links[0].1 == discordId then Some(links[0].0)
    else
      var r := PlayerIdOf(links[1..], discordId);
      if r.Some? then
        ghost var i :| 0 <= i < |links| - 1 && links[1..][i] == (r.value, discordId)
                       && forall j | 0 <= j < i :: links[1..][j].1 != discordId;
        assert links[i + 1] == (r.value, discordId);
        r
      else r
  }

  /** The UUID the reverse lookup finds is linked back to the same Discord id. */
  lemma ReverseThenForward(links: LinkTable, discordId: string)
    requires KeysDistinct(links)
    requires PlayerIdOf(links, discordId).Some?
    ensures DiscordIdOf(links, PlayerIdOf(links, discordId).value) == Some(discordId)
  {
  }

  /** Every Discord id that some UUID links to is found by the reverse
      lookup, and the UUID found links to it. */
  lemma ForwardThenReverse(links: LinkTable, uuid: string)
    requires KeysDistinct(links)
    requires DiscordIdOf(links, uuid).Some?
    ensures PlayerIdOf(links, DiscordIdOf(links, uuid).value).Some?
    ensures DiscordIdOf(links, PlayerIdOf(links, DiscordIdOf(links, uuid).value).value)
            == DiscordIdOf(links, uuid)
  {
  }

  /** A guild member as far as the bridge reads it. `defaultAvatarUrl` is
      computed by the Discord library and taken as given. */
  datatype Member = Member(id: string, effectiveName: string, avatarId: Option<string>, defaultAvatarUrl: string)

  /** Retrieval of the guild member with a given Discord id over the network;
      `None` when retrieval fails or the user is not in the guild. */
  type MemberFetch = string -> Option<Member>

  /** `getDiscordMemberFromUUID`: no member for an unlinked UUID; otherwise
      whatever retrieval of the linked Discord id yields. */
  function MemberOf(links: LinkTable, fetch: MemberFetch, uuid: string): (r: Option<Member>)
    ensures !Linked(links, uuid) ==> r == None
    ensures Linked(links, uuid) ==> r == fetch(DiscordIdOf(links, uuid).value)
  {
    match DiscordIdOf(links, uuid)
    case None => None
    case Some(discordId) => fetch(discordId)
  }

  const AvatarCdn: string := "https://cdn.discordapp.com/avatars/"

  /** `getAvatarUrl`: no URL without a member; the CDN URL of the member's
      avatar when it has one; else the member's default avatar URL. */
  function AvatarUrl(member: Option<Member>): (r: Option<string>)
    ensures member.None? <==> r.None?
    ensures member.Some? && member.value.avatarId.Some? ==>
      r == Some(AvatarCdn + member.value.id + "/" + member.value.avatarId.value + ".png")
    ensures member.Some? && member.value.avatarId.None? ==> r == Some(member.value.defaultAvatarUrl)
  {
    match member
    case None => None
    case Some(m) =>
      match m.avatarId
      case Some(avatarId) => Some(AvatarCdn + m.id + "/" + avatarId + ".png")
      case None => Some(m.defaultAvatarUrl)
  }

  /** The CDN avatar URL identifies the member id and the avatar id: Discord
      ids and avatar hashes never contain a slash. */
  lemma AvatarUrlIdentifiesMember(m: Member, m': Member)
    requires m.avatarId.Some? && m'.avatarId.Some?
    requires '/' !in m.id && '/' !in m'.id
    requires AvatarUrl(Some(m)) == AvatarUrl(Some(m'))
    ensures m.id == m'.id && m.avatarId == m'.avatarId
  {
    var tail := m.avatarId.value + ".png";
    var tail' := m'.avatarId.value + ".png";
    assert AvatarCdn + m.id + "/" + m.avatarId.value + ".png" == AvatarCdn + (m.id + ['/'] + tail);
    assert AvatarCdn + m'.id + "/" + m'.avatarId.value + ".png" == AvatarCdn + (m'.id + ['/'] + tail');
    assert m.id + ['/'] + tail == (AvatarCdn + (m.id + ['/'] + tail))[|AvatarCdn|..];
    SplitAtSeparator(m.id, tail, m'.id, tail', '/');
    assert m.avatarId.value == tail[..|tail| - 4];
  }

  /** One record of `usercache.json`. */
  datatype CacheEntry = CacheEntry(uuid: string, name: string)

  /** No record after index `k` has the same UUID as record `k`. */
  predicate LastFor(records: seq<CacheEntry>, k: int)
    requires 0 <= k < |records|
  {
    forall j | k < j < |records| :: records[j].uuid != records[k].uuid
  }

  /** The UUIDs the records carry. */
  function UuidsOf(records: seq<CacheEntry>): set<string> {
    set k | 0 <= k < |records| :: records[k].uuid
  }

  /** `cache` holds exactly the UUIDs of `records`, each mapped to the name
      of its last record. */
  predicate LastRecordWins(records: seq<CacheEntry>, cache: map<string, string>) {
    && cache.Keys == UuidsOf(records)
    && (forall k | 0 <= k < |records| && LastFor(records, k) :: cache[records[k].uuid] == records[k].name)
  }

  /** Putting one more record into the cache keeps the last record winning. */
  lemma PutKeepsLastRecordWinning(records: seq<CacheEntry>, cache: map<string, string>)
    requires |records| > 0
    requires LastRecordWins(records[..|records| - 1], cache)
    ensures LastRecordWins(records, cache[records[|records| - 1].uuid := records[|records| - 1].name])
  {
    var n := |records| - 1;
    var front, last := records[..n], records[n];
    var cache' := cache[last.uuid := last.name];
    UuidsOfExtended(records);
    assert cache'.Keys == UuidsOf(records);
    forall k | 0 <= k < |records| && LastFor(records, k) ensures cache'[records[k].uuid] == records[k].name {
      if k < n {
        LastForOfFront(records, k);
        assert cache[front[k].uuid] == front[k].name;
      }
    }
  }

  /** The UUIDs of one more record. */
  lemma UuidsOfExtended(records: seq<CacheEntry>)
    requires |records| > 0
    ensures UuidsOf(records) == UuidsOf(records[..|records| - 1]) + {records[|records| - 1].uuid}
  {
    var n := |records| - 1;
    var front := records[..n];
    forall u | u in UuidsOf(records) ensures u in UuidsOf(front) + {records[n].uuid} {
      var k :| 0 <= k < |records| && records[k].uuid == u;
      if k < n {
        assert front[k].uuid == u;
      }
    }
    forall u | u in UuidsOf(front) ensures u in UuidsOf(records) {
      var k :| 0 <= k < n && front[k].uuid == u;
      assert records[k].uuid == u;
    }
  }

  /** A record last for its UUID among all records, other than the final
      one, is last in the records before the final one too, and carries a
      different UUID from the final one. */
  lemma LastForOfFront(records: seq<CacheEntry>, k: int)
    requires 0 <= k < |records| - 1 && LastFor(records, k)
    ensures LastFor(records[..|records| - 1], k)
    ensures records[k].uuid != records[|records| - 1].uuid
  {
    var front := records[..|records| - 1];
    forall j | k < j < |front| ensures front[j].uuid != front[k].uuid {
      assert front[j] == records[j];
    }
  }

  /** The map `loadUserCache` builds by putting the records in order, so that
      a later record with the same UUID overrides an earlier one. */
  function UserCache(records: seq<CacheEntry>): (cache: map<string, string>)
    ensures LastRecordWins(records, cache)
    decreases |records|
  {
    if |records| == 0 then map[]
    else
      var last := records[|records| - 1];
      var cache := UserCache(records[..|records| - 1]);
      PutKeepsLastRecordWinning(records, cache);
      cache[last.uuid := last.name]
  }

  /** `getMinecraftName`: when a member is found for `uuid`, the cached name
      (or none); when none is found, the source dereferences `null`. */
  function MinecraftName(links: LinkTable, fetch: MemberFetch, records: seq<CacheEntry>, uuid: string)
    : (r: Result<Option<string>>)
    ensures r.NullDereference? <==> MemberOf(links, fetch, uuid).None?
    ensures r.Ok? ==> (r.value.Some? <==> exists k | 0 <= k < |records| :: records[k].uuid == uuid)
    ensures r.Ok? && r.value.Some? ==>
      exists k | 0 <= k < |records| :: records[k] == CacheEntry(uuid, r.value.value) && LastFor(records, k)
  {
    if MemberOf(links, fetch, uuid).Some? then
      var cache := UserCache(records);
      if uuid in cache then
        LastRecordExists(records, uuid);
        Ok(Some(cache[uuid]))
      else Ok(None)
    else NullDereference
  }

  /** A UUID that some record carries has a last record. */
  lemma LastRecordExists(records: seq<CacheEntry>, uuid: string)
    requires exists i | 0 <= i < |records| :: records[i].uuid == uuid
    ensures exists k | 0 <= k < |records| :: records[k].uuid == uuid && LastFor(records, k)
  {
    var k := |records| - 1;
    while records[k].uuid != uuid
      invariant 0 <= k < |records|
      invariant forall j | k < j < |records| :: records[j].uuid != uuid
      invariant exists i | 0 <= i <= k :: records[i].uuid == uuid
      decreases k
    {
      k := k - 1;
    }
    assert LastFor(records, k);
  }
}
