/**
 The decision and reconstruction logic of `handle_message`, as a pure
 function from the dedup cache and a message to the new cache and the
 reply text the bot would send, if any.
 */
module Handler {
  import opened Wrappers
  import opened Sequences
  import opened Urls
  import opened Cleaner
  import opened Entities
  import opened Reconstruct
  import Dedup
  import Utf16

  /** `FUNNY_INTROS`; the random choice among them is the `intro` parameter of `Handle`. */
  const FunnyIntros: seq<string> := [
    "🪲 Użyłem sprayu na wścibskie pluskwy",
    "🦠 Odkaziłem tę wiadomość z brudu marketingowego",
    "🧼 Zeskrobałem tracking jak starą farbę z okna",
    "🫧 Przepuściłem link przez pralkę na 90°C",
    "🐛 Wyczesałem wszy z tego URL-a",
    "🧹 Usunąłem cyfrowe glutki, proszę bardzo",
    "🥛 Wyprałem ten link w sodzie oczyszczonej",
    "🪱 Pozbawiłem ten link pasożytów śledzących",
    "🫧 Odrdzewiłem i wypolerowałem go na błysk",
    "🗑️  Wyrzuciłem śledzące robaczki do kosza"
  ]

  /** The sender. An empty `username` or `fullName` stands for a missing (falsy) one. */
  datatype User = User(isBot: bool, username: string, fullName: string)

  /**
   The fields of an incoming message the handler reads. An empty `text` or
   `caption` and an empty entity list stand for Python's `None` as well,
   since the handler only tests them for truthiness.
   */
  datatype Message = Message(
    messageId: Option<int>,
    fromUser: Option<User>,
    text: string,
    caption: string,
    entities: seq<Entity>,
    captionEntities: seq<Entity>)

  datatype Handled = Handled(cache: Dedup.Cache, reply: Option<string>)

  /** `message.text or message.caption`. */
  function MessageText(m: Message): string
  {
    if m.text != "" then m.text else m.caption
  }

  /** `message.entities or message.caption_entities or []`, with offsets and lengths in UTF-16 code units. */
  function MessageEntities(m: Message): seq<Entity>
  {
    if m.entities != [] then m.entities else m.captionEntities
  }

  /** The message's entities re-expressed in character positions of the text they annotate. */
  function TextEntities(m: Message): seq<Entity>
  {
    Utf16.CharEntities(MessageText(m), MessageEntities(m))
  }

  predicate FromBot(m: Message)
  {
    m.fromUser.Some? && m.fromUser.value.isBot
  }

  /** The dedup gate as the handler runs it: a message without an id always passes and leaves the cache alone. */
  function Gate(cache: Dedup.Cache, m: Message): Dedup.Admission
  {
    match m.messageId
    case None => Dedup.Admission(true, cache)
    case Some(id) => Dedup.Offer(cache, id)
  }

  /** The attribution: `@username`, else the full name, else "anon"; never empty. */
  function Author(user: Option<User>): (r: string)
    ensures r != ""
    ensures user.Some? && user.value.username != "" ==> r == "@" + user.value.username
    ensures user.Some? && user.value.username == "" && user.value.fullName != "" ==> r == user.value.fullName
    ensures (user.None? || (user.value.username == "" && user.value.fullName == "")) ==> r == "anon"
  {
    match user
    case None => "anon"
    case Some(u) =>
      if u.username != "" then "@" + u.username
      else if u.fullName != "" then u.fullName
      else "anon"
  }

  /** Some extracted pair carries the URL `u`. */
  ghost predicate Carries(found: seq<Found>, u: string)
  {
    exists k :: 0 <= k < |found| && found[k].0 == u
  }

  lemma CarriesSnoc(found: seq<Found>, u: string)
    requires found != []
    ensures Carries(found, u) <==> Carries(found[..|found| - 1], u) || found[|found| - 1].0 == u
  {
    var init := found[..|found| - 1];
    if Carries(found, u) && found[|found| - 1].0 != u {
      var k :| 0 <= k < |found| && found[k].0 == u;
      assert init[k] == found[k];
    }
    if Carries(init, u) {
      var k :| 0 <= k < |init| && init[k].0 == u;
      assert found[k] == init[k];
    }
  }

  /**
   `cleaned_mapping`, built by the handler's loop: an original URL is a key
   exactly when some extracted pair carries it and cleaning changes it, and
   its value is then the cleaned URL.
   */
  function ChangedOnly(lib: UrlLibrary, found: seq<Found>): (m: map<string, string>)
    ensures forall u :: u in m <==> Carries(found, u) && CleanUrl(lib, u) != u
    ensures forall u :: u in m ==> m[u] == CleanUrl(lib, u)
    decreases |found|
  {
    if found == [] then map[]
    else
      var m := ChangedOnly(lib, found[..|found| - 1]);
      var u := found[|found| - 1].0;
      var c := CleanUrl(lib, u);
      assert forall v :: Carries(found, v) <==> Carries(found[..|found| - 1], v) || v == u by {
        forall v
          ensures Carries(found, v) <==> Carries(found[..|found| - 1], v) || v == u
        {
          CarriesSnoc(found, v);
        }
      }
      if c != u then m[u := c] else m
  }

  /** Every extracted URL is replaced by its cleaned form, whether or not the mapping holds it. */
  lemma ReplacementIsCleanUrl(lib: UrlLibrary, found: seq<Found>, k: nat)
    requires k < |found|
    ensures Replacement(ChangedOnly(lib, found), found[k].0) == CleanUrl(lib, found[k].0)
  {
    assert Carries(found, found[k].0);
  }

  /**
   Independent reading of the appended block: the cleaned URL of every
   `TextLink` pair, in entity order, when cleaning changes it and the result
   is non-empty.
   */
  function CleanedTextLinks(lib: UrlLibrary, found: seq<Found>): seq<string>
  {
    if found == [] then []
    else
      var p := found[0];
      var c := CleanUrl(lib, p.0);
      (if p.1.kind == TextLink && c != p.0 && c != "" then [c] else []) + CleanedTextLinks(lib, found[1..])
  }

  /** `m` agrees with the cleaned mapping on every URL of `found`. */
  ghost predicate AgreesOn(lib: UrlLibrary, found: seq<Found>, m: map<string, string>)
  {
    forall k :: 0 <= k < |found| ==>
      (found[k].0 in m <==> CleanUrl(lib, found[k].0) != found[k].0)
      && (found[k].0 in m ==> m[found[k].0] == CleanUrl(lib, found[k].0))
  }

  lemma {:induction false} ExtraLinksAgree(lib: UrlLibrary, found: seq<Found>, m: map<string, string>)
    requires AgreesOn(lib, found, m)
    ensures ExtraLinks(found, m) == CleanedTextLinks(lib, found)
    decreases |found|
  {
    if found != [] {
      assert forall k :: 0 <= k < |found[1..]| ==> found[1..][k] == found[k + 1];
      ExtraLinksAgree(lib, found[1..], m);
    }
  }

  /** The appended links are the changed, non-empty cleaned targets of the text links, in entity order. */
  lemma ExtraLinksAreCleanedTextLinks(lib: UrlLibrary, found: seq<Found>)
    ensures ExtraLinks(found, ChangedOnly(lib, found)) == CleanedTextLinks(lib, found)
  {
    ExtraLinksAgree(lib, found, ChangedOnly(lib, found));
  }

  /**
   The text part of the handler once a message has passed the gate, the bot
   guard and the empty-text guard: None when nothing would be sent.
   */
  function CleanText(lib: UrlLibrary, text: string, entities: seq<Entity>): (r: Option<string>)
    ensures r.Some? ==> r.value != text || ExtraLinks(Extract(text, entities), ChangedOnly(lib, Extract(text, entities))) != []
  {
    var found := Extract(text, entities);
    if found == [] then None
    else
      var mapping := ChangedOnly(lib, found);
      if mapping == map[] then None
      else
        var body := CleanedBody(text, found, mapping);
        var extra := ExtraLinks(found, mapping);
        var cleaned := if extra != [] then body + CleanedLinksHeader + Join(extra) else body;
        if cleaned == text && extra == [] then None
        else Some(cleaned)
  }

  /** Cleaning leaves every extracted URL as it was. */
  ghost predicate AllUnchanged(lib: UrlLibrary, found: seq<Found>)
  {
    forall k :: 0 <= k < |found| ==> CleanUrl(lib, found[k].0) == found[k].0
  }

  lemma NothingChangedEmptyMapping(lib: UrlLibrary, found: seq<Found>)
    requires AllUnchanged(lib, found)
    ensures ChangedOnly(lib, found) == map[]
  {
    assert ChangedOnly(lib, found).Keys == {};
  }

  /**
   No reply text is produced unless cleaning changes at least one extracted
   URL: a message whose links are all on unknown hosts, or already clean,
   is ignored.
   */
  lemma UnchangedUrlsAreSilent(lib: UrlLibrary, text: string, entities: seq<Entity>)
    requires AllUnchanged(lib, Extract(text, entities))
    ensures CleanText(lib, text, entities).None?
  {
    NothingChangedEmptyMapping(lib, Extract(text, entities));
  }

  /**
   The steps of `handle_message` after the message is known to exist, with
   the entity list the text part reads given as `entities`.
   */
  function Respond(cache: Dedup.Cache, m: Message, lib: UrlLibrary, intro: nat, entities: seq<Entity>): Handled
    requires intro < |FunnyIntros|
  {
    var gate := Gate(cache, m);
    if !gate.isNew then Handled(gate.cache, None)
    else if FromBot(m) then Handled(gate.cache, None)
    else
      var text := MessageText(m);
      if text == "" then Handled(gate.cache, None)
      else
        match CleanText(lib, text, entities)
        case None => Handled(gate.cache, None)
        case Some(cleaned) =>
          Handled(gate.cache, Some(FunnyIntros[intro] + "\nOd " + Author(m.fromUser) + ":\n" + cleaned))
  }

  /**
   `handle_message` as written. The dedup gate runs first, so the cache
   records every message id, even of messages that are then ignored. A reply
   exists exactly when the message is new, not from a bot, has text or a
   caption, and the text part produces output; the reply is the intro, the
   attribution line and the cleaned text. The text part reads the entities'
   offsets and lengths, which Telegram counts in UTF-16 code units, as
   character positions.
   */
  function Handle(cache: Dedup.Cache, msg: Option<Message>, lib: UrlLibrary, intro: nat): (r: Handled)
    requires intro < |FunnyIntros|
    ensures msg.None? ==> r == Handled(cache, None)
    ensures msg.Some? ==> r.cache == Gate(cache, msg.value).cache
    ensures msg.Some? && msg.value.messageId.Some? && msg.value.messageId.value in cache ==>
              r == Handled(cache, None)
    ensures r.reply.Some? <==>
              && msg.Some?
              && Gate(cache, msg.value).isNew
              && !FromBot(msg.value)
              && MessageText(msg.value) != ""
              && CleanText(lib, MessageText(msg.value), MessageEntities(msg.value)).Some?
    ensures r.reply.Some? ==>
              r.reply.value == FunnyIntros[intro] + "\nOd " + Author(msg.value.fromUser) + ":\n"
                               + CleanText(lib, MessageText(msg.value), MessageEntities(msg.value)).value
  {
    match msg
    case None => Handled(cache, None)
    case Some(m) => Respond(cache, m, lib, intro, MessageEntities(m))
  }

  /**
   `handle_message` with the entity positions first converted from UTF-16
   code units to character positions of the text, so that every range the
   text part slices or splices is the one Telegram marked.
   */
  function HandleCharEntities(cache: Dedup.Cache, msg: Option<Message>, lib: UrlLibrary, intro: nat): (r: Handled)
    requires intro < |FunnyIntros|
    ensures msg.None? ==> r == Handled(cache, None)
    ensures msg.Some? ==> r.cache == Gate(cache, msg.value).cache
    ensures msg.Some? && msg.value.messageId.Some? && msg.value.messageId.value in cache ==>
              r == Handled(cache, None)
    ensures r.reply.Some? <==>
              && msg.Some?
              && Gate(cache, msg.value).isNew
              && !FromBot(msg.value)
              && MessageText(msg.value) != ""
              && CleanText(lib, MessageText(msg.value), TextEntities(msg.value)).Some?
    ensures r.reply.Some? ==>
              r.reply.value == FunnyIntros[intro] + "\nOd " + Author(msg.value.fromUser) + ":\n"
                               + CleanText(lib, MessageText(msg.value), TextEntities(msg.value)).value
  {
    match msg
    case None => Handled(cache, None)
    case Some(m) => Respond(cache, m, lib, intro, TextEntities(m))
  }

  /**
   The handler as written and the corrected one agree on every message whose
   text has no characters outside the Basic Multilingual Plane and whose
   entities lie inside it: there a code unit is a character.
   */
  lemma HandleAgreesOnBmpText(cache: Dedup.Cache, msg: Option<Message>, lib: UrlLibrary, intro: nat)
    requires intro < |FunnyIntros|
    requires msg.Some? ==> Utf16.Bmp(MessageText(msg.value))
    requires msg.Some? ==> forall k :: 0 <= k < |MessageEntities(msg.value)| ==>
               MessageEntities(msg.value)[k].offset + MessageEntities(msg.value)[k].length <= |MessageText(msg.value)|
    ensures Handle(cache, msg, lib, intro) == HandleCharEntities(cache, msg, lib, intro)
  {
    if msg.Some? {
      Utf16.CharEntitiesBmp(MessageText(msg.value), MessageEntities(msg.value));
    }
  }

  /** A message delivered twice in succession is answered at most once. */
  lemma DuplicateDeliveryIsSilent(cache: Dedup.Cache, m: Message, lib: UrlLibrary, intro: nat)
    requires intro < |FunnyIntros|
    requires m.messageId.Some?
    ensures var first := Handle(cache, Some(m), lib, intro);
            Handle(first.cache, Some(m), lib, intro) == Handled(first.cache, None)
  {
  }

  /**
   For `Url` entities inside the text, ascending and non-overlapping, the
   body of the reply is the text with each such range replaced by the
   cleaned form of the URL written there; text outside the ranges and the
   labels of text links are untouched.
   */
  lemma BodyReplacesUrlRanges(lib: UrlLibrary, text: string, entities: seq<Entity>)
    requires WellPlaced(text, UrlPairs(Extract(text, entities)))
    ensures var found := Extract(text, entities);
            var mapping := ChangedOnly(lib, found);
            && CleanedBody(text, found, mapping) == Rebuild(text, UrlPairs(found), 0, mapping)
            && (forall k :: 0 <= k < |found| ==> Replacement(mapping, found[k].0) == CleanUrl(lib, found[k].0))
  {
    var found := Extract(text, entities);
    CleanedBodyReplacesRanges(text, found, ChangedOnly(lib, found));
  }

  /**
   A message whose links are all hidden behind text labels keeps its body
   and gets the cleaned targets appended under the "Cleaned links:" header,
   one per line; nothing is sent when no target changes.
   */
  lemma TextLinksOnlyReply(lib: UrlLibrary, text: string, entities: seq<Entity>)
    requires UrlPairs(Extract(text, entities)) == []
    ensures var links := CleanedTextLinks(lib, Extract(text, entities));
            CleanText(lib, text, entities)
            == if links == [] then None else Some(text + CleanedLinksHeader + Join(links))
  {
    var found := Extract(text, entities);
    var mapping := ChangedOnly(lib, found);
    var links := CleanedTextLinks(lib, found);
    assert ExtraLinks(found, mapping) == links by {
      ExtraLinksAreCleanedTextLinks(lib, found);
    }
    assert CleanedBody(text, found, mapping) == text by {
      BodyWithoutUrlEntities(text, found, mapping);
    }
    assert links != [] ==> found != [] && mapping != map[] by {
      if links != [] {
        assert ExtraLinks(found, mapping)[0] in mapping.Values;
      }
    }
  }

  /**
   When some text-link target changes, the reply is the rebuilt body, the
   "Cleaned links:" header and the changed targets one per line in entity
   order, whatever `Url` entities the message also has.
   */
  lemma MixedReply(lib: UrlLibrary, text: string, entities: seq<Entity>)
    requires CleanedTextLinks(lib, Extract(text, entities)) != []
    ensures var found := Extract(text, entities);
            CleanText(lib, text, entities)
            == Some(CleanedBody(text, found, ChangedOnly(lib, found)) + CleanedLinksHeader
                    + Join(CleanedTextLinks(lib, found)))
  {
    var found := Extract(text, entities);
    var mapping := ChangedOnly(lib, found);
    assert ExtraLinks(found, mapping) == CleanedTextLinks(lib, found) by {
      ExtraLinksAreCleanedTextLinks(lib, found);
    }
    assert found != [] && mapping != map[] by {
      assert ExtraLinks(found, mapping)[0] in mapping.Values;
    }
    ExtraLinksShapeReply(lib, text, entities);
  }

  /** With a non-empty mapping and appended links, the text part always replies with body, header and links. */
  lemma ExtraLinksShapeReply(lib: UrlLibrary, text: string, entities: seq<Entity>)
    requires var found := Extract(text, entities);
             var mapping := ChangedOnly(lib, found);
             found != [] && mapping != map[] && ExtraLinks(found, mapping) != []
    ensures var found := Extract(text, entities);
            var mapping := ChangedOnly(lib, found);
            CleanText(lib, text, entities)
            == Some(CleanedBody(text, found, mapping) + CleanedLinksHeader + Join(ExtraLinks(found, mapping)))
  {
  }

  lemma SpliceChangesText(text: string, o: nat, l: nat, c: string)
    requires o + l <= |text|
    requires c != text[o..o + l]
    ensures SpliceAt(text, o, l, c) != text
  {
    var t := SpliceAt(text, o, l, c);
    assert t == text[..o] + c + text[o + l..];
  }

  /** The text part ends in its no-change guard: with no appended links the reply is the body if it differs from the text, and there is none if it does not. */
  lemma CleanTextWithoutExtraLinks(lib: UrlLibrary, text: string, entities: seq<Entity>)
    requires var found := Extract(text, entities);
             var mapping := ChangedOnly(lib, found);
             && found != [] && mapping != map[]
             && ExtraLinks(found, mapping) == []
    ensures var found := Extract(text, entities);
            var body := CleanedBody(text, found, ChangedOnly(lib, found));
            CleanText(lib, text, entities) == if body != text then Some(body) else None
  {
  }

  /**
   A single visible URL that cleaning changes is replaced in place and the
   rest of the text is kept: the shape of every end-to-end case with one
   YouTube or Twitter link.
   */
  lemma SingleUrlReply(lib: UrlLibrary, text: string, e: Entity)
    requires e.kind == Url && e.offset + e.length <= |text|
    requires CleanUrl(lib, text[e.offset..e.offset + e.length]) != text[e.offset..e.offset + e.length]
    ensures CleanText(lib, text, [e])
            == Some(SpliceAt(text, e.offset, e.length, CleanUrl(lib, text[e.offset..e.offset + e.length])))
  {
    SingleUrlReplyIsBody(lib, text, e);
    SingleUrlBody(lib, text, e);
  }

  /** A single changed visible URL gets a reply, and the reply text is the rebuilt body. */
  lemma SingleUrlReplyIsBody(lib: UrlLibrary, text: string, e: Entity)
    requires e.kind == Url && e.offset + e.length <= |text|
    requires CleanUrl(lib, text[e.offset..e.offset + e.length]) != text[e.offset..e.offset + e.length]
    ensures var found := Extract(text, [e]);
            CleanText(lib, text, [e]) == Some(CleanedBody(text, found, ChangedOnly(lib, found)))
  {
    var found := Extract(text, [e]);
    var mapping := ChangedOnly(lib, found);
    assert found != [] && mapping != map[] && ExtraLinks(found, mapping) == [] by {
      SingleUrlMapping(lib, text, e);
    }
    assert CleanedBody(text, found, mapping) != text by {
      SingleUrlBodyChanges(lib, text, e);
    }
    CleanTextWithoutExtraLinks(lib, text, [e]);
  }

  lemma SingleUrlBodyChanges(lib: UrlLibrary, text: string, e: Entity)
    requires e.kind == Url && e.offset + e.length <= |text|
    requires CleanUrl(lib, text[e.offset..e.offset + e.length]) != text[e.offset..e.offset + e.length]
    ensures var found := Extract(text, [e]);
            CleanedBody(text, found, ChangedOnly(lib, found)) != text
  {
    SingleUrlBody(lib, text, e);
    SpliceChangesText(text, e.offset, e.length, CleanUrl(lib, text[e.offset..e.offset + e.length]));
  }

  /** One `Url` entity inside the text: the body is the text with that range replaced by the cleaned URL written there. */
  lemma SingleUrlBody(lib: UrlLibrary, text: string, e: Entity)
    requires e.kind == Url && e.offset + e.length <= |text|
    ensures var found := Extract(text, [e]);
            CleanedBody(text, found, ChangedOnly(lib, found))
            == SpliceAt(text, e.offset, e.length, CleanUrl(lib, text[e.offset..e.offset + e.length]))
  {
    var orig := text[e.offset..e.offset + e.length];
    var found := Extract(text, [e]);
    assert found == [(orig, e)] by {
      ExtractInText(text, e);
    }
    var mapping := ChangedOnly(lib, found);
    CleanedBodySingle(text, (orig, e), mapping);
    ReplacementIsCleanUrl(lib, found, 0);
  }

  /** A single changed visible URL gives a one-entry mapping and nothing to append. */
  lemma SingleUrlMapping(lib: UrlLibrary, text: string, e: Entity)
    requires e.kind == Url && e.offset + e.length <= |text|
    requires CleanUrl(lib, text[e.offset..e.offset + e.length]) != text[e.offset..e.offset + e.length]
    ensures var found := Extract(text, [e]);
            var mapping := ChangedOnly(lib, found);
            && found != []
            && mapping == map[text[e.offset..e.offset + e.length] := CleanUrl(lib, text[e.offset..e.offset + e.length])]
            && ExtraLinks(found, mapping) == []
  {
    var orig := text[e.offset..e.offset + e.length];
    var found := Extract(text, [e]);
    assert found == [(orig, e)] by {
      ExtractInText(text, e);
    }
    var mapping := ChangedOnly(lib, found);
    assert mapping.Keys == {orig} by {
      assert Carries(found, orig) by {
        assert found[0].0 == orig;
      }
      forall u | Carries(found, u)
        ensures u == orig
      {
        var k :| 0 <= k < |found| && found[k].0 == u;
      }
    }
    assert ExtraLinks(found, mapping) == [] by {
      assert found[1..] == [];
    }
  }
}
