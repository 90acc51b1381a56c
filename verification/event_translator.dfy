/** The Minecraft-to-Discord direction (`ChatListener`): each game event
    becomes exactly one outbound webhook message, or none. */
module EventTranslator {
  import opened Wrappers
  import opened JavaStrings
  import opened Components
  import opened Identity
  import opened Waypoints
  import ColourCodes

  /** An RGB colour as `java.awt.Color` holds it. */
  datatype Colour = Colour(red: int, green: int, blue: int)

  /** `Color.RED`, the embed colour when the colour table has no entry. */
  const Red: Colour := Colour(255, 0, 0)

  /** One field of a Discord embed. */
  datatype Field = Field(name: string, value: string, inline: bool)

  /** A Discord embed as the bridge fills it in. */
  datatype Embed = Embed(title: string, description: string, fields: seq<Field>, colour: Colour, footer: string)

  /** The content of an outbound webhook message. */
  datatype Payload = PlainText(body: string) | RichEmbed(embed: Embed)

  /** The webhook's displayed sender for one message. */
  datatype Sender = Sender(name: string, avatarUrl: Option<string>)

  /** One message handed to the Discord webhook. */
  datatype Outbound = Outbound(payload: Payload, sender: Sender)

  /** A Minecraft player: its UUID (as `UUID.toString` gives it) and name. */
  datatype Player = Player(uuid: string, name: string)

  /** The display of an advancement: its title and description components. */
  datatype Display = Display(title: Component, description: Component)

  /** What the listener reads besides the event: the link table and member
      retrieval of the Discord side, the translation table `en_us.json`,
      the colour table `colours.json`, plain-text serialisation, and the
      avatar URL of the bot's own account. */
  datatype Bridge = Bridge(
    links: LinkTable,
    fetch: MemberFetch,
    translations: map<string, string>,
    colours: map<string, Colour>,
    serialise: Serialiser,
    selfAvatar: Option<string>)

  /** `translations.optString(key, fallback)` */
  function Translate(translations: map<string, string>, key: string, fallback: string): (r: string)
    ensures key in translations ==> r == translations[key]
    ensures key !in translations ==> r == fallback
  {
    if key in translations then translations[key] else fallback
  }

  /** `colours.getOrDefault(name, Color.RED)` */
  function ColourOf(colours: map<string, Colour>, name: string): (c: Colour)
    ensures name in colours ==> c == colours[name]
    ensures name !in colours ==> c == Red
  {
    if name in colours then colours[name] else Red
  }

  /** A Discord mention of the user with id `id`. */
  function Mention(id: string): string {
    "<@" + id + ">"
  }

  /** The sender of every message `sendSystemMessage` sends. */
  function SystemSender(b: Bridge): Sender {
    Sender("System", b.selfAvatar)
  }

  /** The sender of a chat message: the linked guild member's name and
      avatar; for a player without a member, the player's name and head
      render. */
  function ChatSender(b: Bridge, player: Player): (s: Sender)
    ensures
      var member := MemberOf(b.links, b.fetch, player.uuid);
      && (member.Some? ==> s == Sender(member.value.effectiveName, AvatarUrl(member)))
      && (member.None? ==> s == Sender(player.name, Some("https://mc-heads.net/avatar/" + player.uuid)))
    ensures s.avatarUrl.Some?
  {
    match MemberOf(b.links, b.fetch, player.uuid)
    case Some(m) => Sender(m.effectiveName, AvatarUrl(Some(m)))
    case None => Sender(player.name, Some("https://mc-heads.net/avatar/" + player.uuid))
  }

  /** The embed for a shared waypoint. */
  function WaypointEmbed(w: Waypoint, seed: string, colours: map<string, Colour>, message: string): Embed {
    var dimension := NormaliseDimension(w.dimension);
    Embed(
      "Waypoint",
      "**" + w.name + "**",
      [ Field("Dimension", dimension, false),
        Field("Seed Map", "[Click Here!](" + SeedMapUrl(seed, dimension, w.x, w.z) + ")", true),
        Field("Co-ordinates", "**x**: " + w.x + ", **y**: " + w.y + ", **z**: " + w.z, false) ],
      ColourOf(colours, w.colour),
      message)
  }

  /** `onPlayerChat`. `seed` is the seed of the world "world". A message that
      does not start with the waypoint prefix goes out exactly as serialised;
      a waypoint token with fewer than ten fields becomes the text "Invalid
      waypoint format"; any other becomes the embed built from the split
      fields 1, 3, 4, 5, 6 and 9, with the message itself as footer. */
  function OnPlayerChat(b: Bridge, seed: string, player: Player, message: Component): (r: Outbound)
    ensures r.sender == ChatSender(b, player)
    ensures !StartsWith(b.serialise(message), Prefix) ==> r.payload == PlainText(b.serialise(message))
    ensures StartsWith(b.serialise(message), Prefix) && |Split(b.serialise(message), ':')| < 10 ==>
      r.payload == PlainText("Invalid waypoint format")
    ensures
      var text := b.serialise(message);
      var parts := Split(text, ':');
      StartsWith(text, Prefix) && |parts| >= 10 ==>
        var dimension := NormaliseDimension(parts[9]);
        r.payload == RichEmbed(Embed(
          "Waypoint",
          "**" + parts[1] + "**",
          [ Field("Dimension", dimension, false),
            Field("Seed Map", "[Click Here!](" + SeedMapUrl(seed, dimension, parts[3], parts[5]) + ")", true),
            Field("Co-ordinates", "**x**: " + parts[3] + ", **y**: " + parts[4] + ", **z**: " + parts[5], false) ],
          ColourOf(b.colours, parts[6]),
          text))
  {
    var text := b.serialise(message);
    var sender := ChatSender(b, player);
    if StartsWith(text, Prefix) then
      match Parse(text)
      case Some(w) => Outbound(RichEmbed(WaypointEmbed(w, seed, b.colours, text)), sender)
      case None => Outbound(PlainText("Invalid waypoint format"), sender)
    else Outbound(PlainText(text), sender)
  }

  /** A waypoint token as the mod produces it comes out as the embed of that
      waypoint: title "Waypoint", the name in bold, then the fields Dimension
      (normalised), Seed Map (a link for the seed, dimension and x/z) and
      Co-ordinates, in that order; the colour from the colour table (red
      when missing); the token itself as footer. */
  lemma SharedWaypointEmbed(
    b: Bridge, seed: string, player: Player, message: Component,
    w: Waypoint, initials: string, visibility: string, yaw: string)
    requires Encodable(w, initials, visibility, yaw)
    requires b.serialise(message) == Token(w, initials, visibility, yaw)
    ensures
      var dimension := NormaliseDimension(w.dimension);
      OnPlayerChat(b, seed, player, message).payload == RichEmbed(Embed(
        "Waypoint",
        "**" + w.name + "**",
        [ Field("Dimension", dimension, false),
          Field("Seed Map", "[Click Here!](" + SeedMapUrl(seed, dimension, w.x, w.z) + ")", true),
          Field("Co-ordinates", "**x**: " + w.x + ", **y**: " + w.y + ", **z**: " + w.z, false) ],
        ColourOf(b.colours, w.colour),
        Token(w, initials, visibility, yaw)))
  {
    ParseToken(w, initials, visibility, yaw);
  }

  /** A player joining or leaving the server. */
  datatype Presence = Joined | Left

  /** The words that follow the subject of a presence announcement. */
  function PresenceVerb(event: Presence): string {
    match event
    case Joined => " has joined the game"
    case Left => " has left the game"
  }

  /** `onPlayerJoin` and `onPlayerLeave`: the linked member's mention, or
      else the player's name, followed by " has joined the game" or " has
      left the game". */
  function OnPresence(b: Bridge, player: Player, event: Presence): (r: Outbound)
    ensures r.sender == SystemSender(b)
    ensures
      var member := MemberOf(b.links, b.fetch, player.uuid);
      && (member.Some? && event == Joined ==> r.payload == PlainText(Mention(member.value.id) + " has joined the game"))
      && (member.None? && event == Joined ==> r.payload == PlainText(player.name + " has joined the game"))
      && (member.Some? && event == Left ==> r.payload == PlainText(Mention(member.value.id) + " has left the game"))
      && (member.None? && event == Left ==> r.payload == PlainText(player.name + " has left the game"))
  {
    Outbound(PlainText(PresenceSubject(b, player) + PresenceVerb(event)), SystemSender(b))
  }

  /** Who joins or leaves: the member's mention, or the player's name. */
  function PresenceSubject(b: Bridge, player: Player): string {
    match MemberOf(b.links, b.fetch, player.uuid)
    case Some(m) => Mention(m.id)
    case None => player.name
  }

  /** Who made an advancement: the mention of the linked Discord id, or the
      player's name. Unlike joining, this reads the link table only. */
  function AdvancementSubject(b: Bridge, player: Player): (r: string)
    ensures Linked(b.links, player.uuid) ==> r == Mention(DiscordIdOf(b.links, player.uuid).value)
    ensures !Linked(b.links, player.uuid) ==> r == player.name
  {
    match DiscordIdOf(b.links, player.uuid)
    case Some(id) => Mention(id)
    case None => player.name
  }

  /** Joining and advancements name a player alike when the guild member is
      found; a linked player whose member cannot be retrieved is mentioned
      for an advancement but named for joining. Member retrieval by id is
      taken to return the member with that id. */
  lemma JoinAndAdvancementSubjects(b: Bridge, player: Player)
    requires forall id | b.fetch(id).Some? :: b.fetch(id).value.id == id
    ensures MemberOf(b.links, b.fetch, player.uuid).Some? ==>
      OnPresence(b, player, Joined).payload == PlainText(AdvancementSubject(b, player) + " has joined the game")
    ensures Linked(b.links, player.uuid) && MemberOf(b.links, b.fetch, player.uuid).None? ==>
      && OnPresence(b, player, Joined).payload == PlainText(player.name + " has joined the game")
      && AdvancementSubject(b, player) == Mention(DiscordIdOf(b.links, player.uuid).value)
  {
  }

  /** `onPlayerAdvancement`: a message only when the advancement has a
      display whose title and description both carry translation keys that
      the translation table holds; otherwise nothing. */
  function OnPlayerAdvancement(b: Bridge, player: Player, display: Option<Display>): (r: Option<Outbound>)
    ensures r.Some? <==>
      && display.Some?
      && display.value.title.Translatable?
      && display.value.title.key in b.translations
      && display.value.description.Translatable?
      && display.value.description.key in b.translations
    ensures r.Some? ==> r.value == Outbound(
      PlainText(AdvancementSubject(b, player) + " has made the advancement [**"
                + b.translations[display.value.title.key] + "**]\n-# Description: "
                + b.translations[display.value.description.key]),
      SystemSender(b))
  {
    match display
    case None => None
    case Some(d) =>
      var titleKey := TranslationKey(d.title);
      var descriptionKey := TranslationKey(d.description);
      if titleKey.Some? && titleKey.value in b.translations
         && descriptionKey.Some? && descriptionKey.value in b.translations
      then
        var title := b.translations[titleKey.value];
        var description := b.translations[descriptionKey.value];
        Some(Outbound(
          PlainText(AdvancementSubject(b, player) + " has made the advancement [**" + title
                    + "**]\n-# Description: " + description),
          SystemSender(b)))
      else None
  }

  /** The placeholder for argument `n` (counted from 1): `%n$s`. */
  function Placeholder(n: nat): string {
    "%" + NatToString(n) + "$s"
  }

  /** What an argument of a death message is replaced by: the mention of the
      Discord id linked to the entity it shows, when there is one; otherwise
      its plain text. */
  function ArgumentText(b: Bridge, arg: Component): (r: string)
    ensures EntityUuid(arg).Some? && Linked(b.links, EntityUuid(arg).value) ==>
      r == Mention(DiscordIdOf(b.links, EntityUuid(arg).value).value)
    ensures EntityUuid(arg).None? || !Linked(b.links, EntityUuid(arg).value) ==> r == b.serialise(arg)
  {
    match EntityUuid(arg)
    case Some(uuid) =>
      (match DiscordIdOf(b.links, uuid)
       case Some(id) => Mention(id)
       case None => b.serialise(arg))
    case None => b.serialise(arg)
  }

  /** The loop of `replacePlaceholdersWithMentions` from argument index `i`
      on: each placeholder in turn is replaced everywhere in the text as it
      stands after the earlier replacements. */
  function SubstituteFrom(b: Bridge, text: string, args: seq<Component>, i: nat): string
    requires i <= |args|
    decreases |args| - i
  {
    if i == |args| then text
    else SubstituteFrom(b, Replace(text, Placeholder(i + 1), ArgumentText(b, args[i])), args, i + 1)
  }

  /** `replacePlaceholdersWithMentions` */
  function ReplacePlaceholders(b: Bridge, template: string, args: seq<Component>): string {
    SubstituteFrom(b, template, args, 0)
  }

  /** A template holding none of the placeholders `%1$s` to `%n$s`, for `n`
      arguments, comes back unchanged, whatever the arguments' texts. */
  lemma {:induction false} UnusedPlaceholdersKept(b: Bridge, template: string, args: seq<Component>, i: nat)
    requires i <= |args|
    requires forall n | i < n <= |args| :: !Contains(template, Placeholder(n))
    ensures SubstituteFrom(b, template, args, i) == template
    decreases |args| - i
  {
    if i < |args| {
      assert !Contains(template, Placeholder(i + 1));
      ReplaceWithoutTarget(template, Placeholder(i + 1), ArgumentText(b, args[i]));
      UnusedPlaceholdersKept(b, template, args, i + 1);
    }
  }

  /** The death message of a translatable component: its translation (or
      the key itself when untranslated) with the placeholders replaced. */
  function DeathText(b: Bridge, message: Component): string {
    match message
    case Translatable(key, args) => ReplacePlaceholders(b, Translate(b.translations, key, key), args)
    case _ => b.serialise(message)
  }

  /** `onPlayerDeath`: nothing without a death message; otherwise the death
      text with colour escapes stripped, from "System". */
  function OnPlayerDeath(b: Bridge, message: Option<Component>): (r: Option<Outbound>)
    ensures r.None? <==> message.None?
    ensures r.Some? ==> r.value.sender == SystemSender(b)
    ensures r.Some? && !message.value.Translatable? ==>
      r.value.payload == PlainText(ColourCodes.Strip(b.serialise(message.value)))
    ensures r.Some? && message.value.Translatable? ==>
      r.value.payload == PlainText(ColourCodes.Strip(ReplacePlaceholders(
        b, Translate(b.translations, message.value.key, message.value.key), message.value.args)))
  {
    match message
    case None => None
    case Some(m) => Some(Outbound(PlainText(ColourCodes.Strip(DeathText(b, m))), SystemSender(b)))
  }

  /** A placeholder starts with `%` and holds no other `%`. */
  lemma PlaceholderShape(n: nat)
    ensures Placeholder(n)[0] == '%' && '%' !in Placeholder(n)[1..]
    ensures FirstCharUnique(Placeholder(n))
  {
    var d := NatToString(n);
    assert Placeholder(n)[1..] == d + "$s";
  }

  /** No placeholder starts where a different one does. */
  lemma PlaceholderNotAtFront(n: nat, m: nat, rest: string)
    requires n != m
    ensures !StartsWith(Placeholder(n) + rest, Placeholder(m))
  {
    NatToStringReadsBack(n);
    NatToStringReadsBack(m);
    DigitsNotAtFront(NatToString(n), NatToString(m), rest);
  }

  /** `%d$s` does not start with `%e$s` for different digit strings: the
      digits differ, or one of them meets `$` where the other has a digit. */
  lemma DigitsNotAtFront(d: string, e: string, rest: string)
    requires forall k | 0 <= k < |d| :: '0' <= d[k] <= '9'
    requires forall k | 0 <= k < |e| :: '0' <= e[k] <= '9'
    requires d != e
    ensures !StartsWith("%" + d + "$s" + rest, "%" + e + "$s")
  {
    var s, p := "%" + d + "$s" + rest, "%" + e + "$s";
    if |p| <= |s| {
      if |e| == |d| {
        var k :| 0 <= k < |d| && d[k] != e[k];
        assert s[..|p|][1 + k] == d[k] && p[1 + k] == e[k];
      } else if |e| < |d| {
        assert s[..|p|][1 + |e|] == d[|e|] && p[1 + |e|] == '$';
      } else {
        assert s[..|p|][1 + |d|] == '$' && p[1 + |d|] == e[|d|];
      }
    }
  }

  /** A piece of a translation template: literal text, or the placeholder
      `%n$s` of argument `n`. */
  datatype TemplatePiece = Literal(text: string) | Slot(n: nat)

  /** The text standing for slot `n` once the first `done` arguments have
      been substituted: the text of argument `n` if it is one of them,
      else the placeholder itself. */
  function SlotText(b: Bridge, args: seq<Component>, done: nat, n: nat): string
    requires done <= |args|
  {
    if 1 <= n <= done then ArgumentText(b, args[n - 1]) else Placeholder(n)
  }

  /** The text of a template once the first `done` arguments have been
      substituted; with `done == 0` it is the template as the translation
      table holds it. */
  function Render(b: Bridge, pieces: seq<TemplatePiece>, args: seq<Component>, done: nat): string
    requires done <= |args|
    decreases |pieces|
  {
    if |pieces| == 0 then "" else PieceText(b, pieces[0], args, done) + Render(b, pieces[1..], args, done)
  }

  function PieceText(b: Bridge, piece: TemplatePiece, args: seq<Component>, done: nat): string
    requires done <= |args|
  {
    match piece
    case Literal(text) => text
    case Slot(n) => SlotText(b, args, done, n)
  }

  /** The literal parts of the template hold no `%`. */
  predicate LiteralsFree(pieces: seq<TemplatePiece>) {
    forall k | 0 <= k < |pieces| && pieces[k].Literal? :: '%' !in pieces[k].text
  }

  /** No argument is substituted by a text holding `%`. */
  predicate ArgumentsFree(b: Bridge, args: seq<Component>) {
    forall k | 0 <= k < |args| :: '%' !in ArgumentText(b, args[k])
  }

  /** One round of the loop: replacing the next placeholder substitutes
      exactly the slots of that argument and leaves every other slot and
      all literal text as it is. */
  lemma {:induction false} ReplaceNextPlaceholder(b: Bridge, pieces: seq<TemplatePiece>, args: seq<Component>, done: nat)
    requires done < |args|
    requires LiteralsFree(pieces) && ArgumentsFree(b, args)
    ensures Replace(Render(b, pieces, args, done), Placeholder(done + 1), ArgumentText(b, args[done]))
            == Render(b, pieces, args, done + 1)
    decreases |pieces|
  {
    if |pieces| > 0 {
      var rest := Render(b, pieces[1..], args, done);
      ReplaceNextPlaceholder(b, pieces[1..], args, done);
      ReplaceNextInPiece(b, pieces[0], args, done, rest);
    }
  }

  /** The round of the loop on the first piece of a template. */
  lemma ReplaceNextInPiece(b: Bridge, piece: TemplatePiece, args: seq<Component>, done: nat, rest: string)
    requires done < |args|
    requires piece.Literal? ==> '%' !in piece.text
    requires ArgumentsFree(b, args)
    ensures
      var t, a := Placeholder(done + 1), ArgumentText(b, args[done]);
      Replace(PieceText(b, piece, args, done) + rest, t, a) == PieceText(b, piece, args, done + 1) + Replace(rest, t, a)
  {
    match piece
    case Literal(text) => FreeTextKept(text, rest, done + 1, ArgumentText(b, args[done]));
    case Slot(n) => ReplaceNextInSlot(b, n, args, done, rest);
  }

  /** The round of the loop on a slot: the slot of the argument being
      substituted takes its text, every other slot stays as it is. */
  lemma ReplaceNextInSlot(b: Bridge, n: nat, args: seq<Component>, done: nat, rest: string)
    requires done < |args|
    requires ArgumentsFree(b, args)
    ensures
      var t, a := Placeholder(done + 1), ArgumentText(b, args[done]);
      Replace(SlotText(b, args, done, n) + rest, t, a) == SlotText(b, args, done + 1, n) + Replace(rest, t, a)
  {
    var t, a := Placeholder(done + 1), ArgumentText(b, args[done]);
    if n == done + 1 {
      ReplaceAtFront(t, rest, a);
    } else if 1 <= n <= done {
      FreeTextKept(ArgumentText(b, args[n - 1]), rest, done + 1, a);
    } else {
      OtherPlaceholderKept(n, done + 1, rest, a);
    }
  }

  /** Text without `%` is copied past whatever placeholder is replaced. */
  lemma FreeTextKept(text: string, rest: string, m: nat, a: string)
    requires '%' !in text
    ensures Replace(text + rest, Placeholder(m), a) == text + Replace(rest, Placeholder(m), a)
  {
    PlaceholderShape(m);
    ReplaceSkipsFreePrefix(text, rest, Placeholder(m), a);
  }

  /** A placeholder other than the one being replaced is copied. */
  lemma OtherPlaceholderKept(n: nat, m: nat, rest: string, a: string)
    requires n != m
    ensures Replace(Placeholder(n) + rest, Placeholder(m), a) == Placeholder(n) + Replace(rest, Placeholder(m), a)
  {
    PlaceholderNotAtFront(n, m, rest);
    PlaceholderShape(n);
    PlaceholderShape(m);
    KeepsNonMatchingHead(Placeholder(n), rest, Placeholder(m), a);
  }

  /** The loop from argument `done` on turns the partly substituted
      template into the fully substituted one. */
  lemma {:induction false} SubstituteRendered(b: Bridge, pieces: seq<TemplatePiece>, args: seq<Component>, done: nat)
    requires done <= |args|
    requires LiteralsFree(pieces) && ArgumentsFree(b, args)
    ensures SubstituteFrom(b, Render(b, pieces, args, done), args, done) == Render(b, pieces, args, |args|)
    decreases |args| - done
  {
    if done < |args| {
      ReplaceNextPlaceholder(b, pieces, args, done);
      SubstituteRendered(b, pieces, args, done + 1);
    }
  }

  /** `replacePlaceholdersWithMentions` on a template whose literal text and
      argument texts hold no `%`: every placeholder `%n$s` with
      `1 <= n <= |args|`, wherever and however often it occurs, becomes the
      text of argument `n`; every other placeholder and all literal text are
      kept. */
  lemma PlaceholdersFilled(b: Bridge, pieces: seq<TemplatePiece>, args: seq<Component>)
    requires LiteralsFree(pieces) && ArgumentsFree(b, args)
    ensures ReplacePlaceholders(b, Render(b, pieces, args, 0), args) == Render(b, pieces, args, |args|)
  {
    SubstituteRendered(b, pieces, args, 0);
  }

  /** A death message whose translation is such a template is sent by
      "System" as the fully substituted template, escapes stripped. */
  lemma DeathFromTemplate(b: Bridge, key: string, pieces: seq<TemplatePiece>, args: seq<Component>)
    requires key in b.translations && b.translations[key] == Render(b, pieces, args, 0)
    requires LiteralsFree(pieces) && ArgumentsFree(b, args)
    ensures OnPlayerDeath(b, Some(Translatable(key, args)))
            == Some(Outbound(PlainText(ColourCodes.Strip(Render(b, pieces, args, |args|))), SystemSender(b)))
  {
    PlaceholdersFilled(b, pieces, args);
  }
}
