/** The waypoint share token of the Xaero's Minimap mod, as players paste it
    into chat: `xaero-waypoint:name:initials:x:y:z:colour:visibility:yaw:dimension`.
    `onPlayerChat` splits it on colons and reads fields by fixed index. */
module Waypoints {
  import opened Wrappers
  import opened JavaStrings

  /** The prefix that marks a chat message as a waypoint token. */
  const Prefix: string := "xaero-waypoint:"

  /** The fields `onPlayerChat` reads from a token. Coordinates stay strings:
      they are only ever redisplayed. `dimension` is the raw field, before
      normalisation. */
  datatype Waypoint = Waypoint(name: string, x: string, y: string, z: string, colour: string, dimension: string)

  /** The waypoint a chat message carries: `None` when `split(":")` gives
      fewer than ten fields; otherwise fields 1, 3, 4, 5, 6 and 9. */
  function Parse(message: string): (r: Option<Waypoint>)
    ensures r.None? <==> |Split(message, ':')| < 10
    ensures
      var parts := Split(message, ':');
      r.Some? ==> r.value == Waypoint(parts[1], parts[3], parts[4], parts[5], parts[6], parts[9])
  {
    var parts := Split(message, ':');
    if |parts| >= 10 then Some(Waypoint(parts[1], parts[3], parts[4], parts[5], parts[6], parts[9]))
    else None
  }

  /** A message with fewer than nine colons is never a waypoint. */
  lemma FewSeparatorsRejected(message: string)
    requires CountChar(message, ':') < 9
    ensures Parse(message) == None
  {
    SplitCountBound(message, ':');
  }

  /** The token the mod produces for a waypoint, with the fields the bridge
      ignores (initials, visibility flag, yaw flag) given explicitly. */
  function Token(w: Waypoint, initials: string, visibility: string, yaw: string): string {
    Join(TokenFields(w, initials, visibility, yaw), ':')
  }

  function TokenFields(w: Waypoint, initials: string, visibility: string, yaw: string): seq<string> {
    ["xaero-waypoint", w.name, initials, w.x, w.y, w.z, w.colour, visibility, yaw, w.dimension]
  }

  /** No field holds a colon, and the dimension (the last field) is not empty,
      so that `split` neither cuts a field nor drops the last one. */
  predicate Encodable(w: Waypoint, initials: string, visibility: string, yaw: string) {
    var fields := TokenFields(w, initials, visibility, yaw);
    && (forall k | 0 <= k < |fields| :: ':' !in fields[k])
    && w.dimension != ""
  }

  /** Every token the mod produces is recognised by its prefix and parses back
      to the waypoint it was made from. */
  lemma {:induction false} ParseToken(w: Waypoint, initials: string, visibility: string, yaw: string)
    requires Encodable(w, initials, visibility, yaw)
    ensures StartsWith(Token(w, initials, visibility, yaw), Prefix)
    ensures Parse(Token(w, initials, visibility, yaw)) == Some(w)
  {
    var fields := TokenFields(w, initials, visibility, yaw);
    var token := Token(w, initials, visibility, yaw);
    SplitJoinBack(fields, ':');
    assert token == "xaero-waypoint" + [':'] + Join(fields[1..], ':');
    assert token[..|Prefix|] == Prefix;
  }

  /** A token whose dimension field is empty loses it to `split` and is
      rejected, although it has nine colons. */
  lemma EmptyDimensionRejected(w: Waypoint, initials: string, visibility: string, yaw: string)
    requires forall k | 0 <= k < 9 :: ':' !in TokenFields(w, initials, visibility, yaw)[k]
    requires w.dimension == ""
    ensures CountChar(Token(w, initials, visibility, yaw), ':') == 9
    ensures Parse(Token(w, initials, visibility, yaw)) == None
  {
    var fields := TokenFields(w, initials, visibility, yaw);
    var token := Token(w, initials, visibility, yaw);
    JoinFieldsBack(fields, ':');
    FieldsJoinBack(token, ':');
    assert token == "xaero-waypoint" + [':'] + Join(fields[1..], ':');
    assert token[|"xaero-waypoint"|] == ':';
    assert Split(token, ':') <= fields && fields[9] == "";
  }

  /** A concrete token: ten fields, initials "x", the two flags "ignored",
      and a dimension field that merely contains "overworld". The constants
      are bound through the preconditions so that the verifier works with
      names for them instead of unfolding the literals inside the recursive
      string functions; the lemma therefore speaks of exactly this one
      token. */
  lemma HomeTokenParses(home: Waypoint, initials: string, flag: string)
    requires home == Waypoint("Home", "100", "64", "200", "0", "overworld,abc")
    requires initials == "x" && flag == "ignored"
    ensures Parse(Token(home, initials, flag, flag)) == Some(home)
    ensures NormaliseDimension(home.dimension) == "Overworld"
  {
    var f := TokenFields(home, initials, flag, flag);
    forall k | 0 <= k < |f| ensures ':' !in f[k] {
    }
    ParseToken(home, initials, flag, flag);
    assert StartsWith(home.dimension, "overworld");
  }

  /** The dimension label shown in the embed. The tests are case-sensitive
      and tried in order: "overworld", then "nether", then "end"; an
      unrecognised value is shown as it is. */
  function NormaliseDimension(raw: string): (r: string)
    ensures Contains(raw, "overworld") ==> r == "Overworld"
    ensures !Contains(raw, "overworld") && Contains(raw, "nether") ==> r == "Nether"
    ensures !Contains(raw, "overworld") && !Contains(raw, "nether") && Contains(raw, "end") ==> r == "End"
    ensures !Contains(raw, "overworld") && !Contains(raw, "nether") && !Contains(raw, "end") ==> r == raw
  {
    if Contains(raw, "overworld") then "Overworld"
    else if Contains(raw, "nether") then "Nether"
    else if Contains(raw, "end") then "End"
    else raw
  }

  /** The normalised labels are capitalised and so match none of the tests:
      normalising twice is normalising once. */
  lemma NormaliseDimensionIdempotent(raw: string)
    ensures NormaliseDimension(NormaliseDimension(raw)) == NormaliseDimension(raw)
  {
    var r := NormaliseDimension(raw);
    if r == "Overworld" {
      OverworldIsFixed();
    } else if r == "Nether" {
      NetherIsFixed();
    } else if r == "End" {
      EndIsFixed();
    }
  }

  lemma OverworldIsFixed()
    ensures NormaliseDimension("Overworld") == "Overworld"
  {
    SameLengthContainsOnlyItself("Overworld", "overworld");
    ContainedCharsOccur("Overworld", "nether");
    assert "nether"[0] == 'n';
    ContainedCharsOccur("Overworld", "end");
    assert "end"[1] == 'n';
  }

  lemma NetherIsFixed()
    ensures NormaliseDimension("Nether") == "Nether"
  {
    ShorterDoesNotContain("Nether", "overworld");
    SameLengthContainsOnlyItself("Nether", "nether");
    ContainedCharsOccur("Nether", "end");
    assert "end"[2] == 'd';
  }

  lemma EndIsFixed()
    ensures NormaliseDimension("End") == "End"
  {
  }

  /** The Chunkbase seed-map link for a seed, dimension and position; x and z
      are used both for the view centre and for the pin. */
  function SeedMapUrl(seed: string, dimension: string, x: string, z: string): string {
    "https://www.chunkbase.com/apps/seed-map#seed=" + seed + "&platform=java_1_21_4&dimension=" + dimension
    + "&x=" + x + "&z=" + z + "&pinX=" + x + "&pinZ=" + z + "&zoom=0.5"
  }
}
