/**
 Message entities and `extract_urls`: the single pass over a message's
 entity list that collects the URLs to clean.
 */
module Entities {
  import opened Wrappers
  import opened Sequences

  /** `MessageEntity.URL`, `MessageEntity.TEXT_LINK`, and every other entity type. */
  datatype Kind = Url | TextLink | Other

  /**
   A rich-text annotation. For `Url` the URL is the body text at
   [offset, offset + length); for `TextLink` the body range is only a label
   and the target travels in `url`.
   */
  datatype Entity = Entity(kind: Kind, offset: nat, length: nat, url: Option<string>)

  /** An extracted URL together with the entity it came from. */
  type Found = (string, Entity)

  /** The entity contributes a URL: a `Url`, or a `TextLink` whose target is non-empty. */
  predicate Emits(e: Entity)
  {
    e.kind == Url || (e.kind == TextLink && e.url.Some? && e.url.value != "")
  }

  /** `p` is what extraction reports for its entity: the text at the range of a `Url`, the target of a `TextLink`. */
  predicate Reports(text: string, p: Found)
  {
    && Emits(p.1)
    && (p.1.kind == Url ==> p.0 == Slice(text, p.1.offset, p.1.offset + p.1.length))
    && (p.1.kind == TextLink ==> Some(p.0) == p.1.url)
  }

  /** What one entity contributes, in isolation. */
  function ExtractOne(text: string, e: Entity): (r: seq<Found>)
    ensures |r| == if Emits(e) then 1 else 0
    ensures forall p :: p in r ==> p.1 == e && Reports(text, p)
  {
    if e.kind == Url then [(Slice(text, e.offset, e.offset + e.length), e)]
    else if e.kind == TextLink && e.url.Some? && e.url.value != "" then [(e.url.value, e)]
    else []
  }

  /**
   `extract_urls`: one pair per `Url` entity (the text at its range) and per
   `TextLink` entity with a non-empty target (that target), other entities
   skipped.
   */
  function Extract(text: string, entities: seq<Entity>): (r: seq<Found>)
    ensures |r| <= |entities|
  {
    if entities == [] then []
    else ExtractOne(text, entities[0]) + Extract(text, entities[1..])
  }

  /** Every reported pair comes from one of the entities and carries that entity's URL. */
  lemma {:induction false} ExtractReports(text: string, entities: seq<Entity>)
    ensures forall p :: p in Extract(text, entities) ==> p.1 in entities && Reports(text, p)
  {
    if entities != [] {
      var head := ExtractOne(text, entities[0]);
      var tail := Extract(text, entities[1..]);
      ExtractReports(text, entities[1..]);
      assert forall p :: p in head + tail ==> p in head || p in tail;
      assert forall e :: e in entities[1..] ==> e in entities;
    }
  }

  /** Extraction is one left-to-right pass: it distributes over concatenation of entity lists. */
  lemma {:induction false} ExtractAppend(text: string, a: seq<Entity>, b: seq<Entity>)
    ensures Extract(text, a + b) == Extract(text, a) + Extract(text, b)
  {
    if a == [] {
      assert a + b == b;
    } else {
      var h := ExtractOne(text, a[0]);
      calc {
        Extract(text, a + b);
      == { assert (a + b)[0] == a[0]; assert (a + b)[1..] == a[1..] + b; }
        h + Extract(text, a[1..] + b);
      == { ExtractAppend(text, a[1..], b); }
        h + (Extract(text, a[1..]) + Extract(text, b));
      ==
        (h + Extract(text, a[1..])) + Extract(text, b);
      ==
        Extract(text, a) + Extract(text, b);
      }
    }
  }

  lemma ExtractSingleUrl(text: string, e: Entity)
    requires e.kind == Url
    ensures Extract(text, [e]) == [(Slice(text, e.offset, e.offset + e.length), e)]
  {
    assert [e][1..] == [];
    assert Extract(text, [e]) == ExtractOne(text, e) + Extract(text, []);
  }

  /** A single `Url` entity inside the text yields exactly the characters at its range. */
  lemma ExtractInText(text: string, e: Entity)
    requires e.kind == Url && e.offset + e.length <= |text|
    ensures Extract(text, [e]) == [(text[e.offset..e.offset + e.length], e)]
  {
    ExtractSingleUrl(text, e);
  }

  /** Every entity that contributes a URL contributes exactly one pair, at its position among the contributors. */
  lemma ExtractEmitsEach(text: string, entities: seq<Entity>, i: nat)
    requires i < |entities|
    ensures Extract(text, entities) ==
            Extract(text, entities[..i]) + ExtractOne(text, entities[i]) + Extract(text, entities[i + 1..])
    ensures Emits(entities[i]) <==> |ExtractOne(text, entities[i])| == 1
  {
    assert entities == entities[..i] + [entities[i]] + entities[i + 1..];
    ExtractAppend(text, entities[..i] + [entities[i]], entities[i + 1..]);
    ExtractAppend(text, entities[..i], [entities[i]]);
    assert Extract(text, [entities[i]]) == ExtractOne(text, entities[i]) by {
      assert [entities[i]][1..] == [];
    }
  }

  /** The two-URL message of the repository's `extract_urls` example: each `Url` entity yields the text at its range, in order. */
  lemma UrlEntitiesExample()
    ensures
      var url1 := "https://example.com";
      var url2 := "https://youtu.be/dQw4w9WgXcQ?t=10";
      var text := "Check this out: " + url1 + " and also " + url2;
      var e1 := Entity(Url, 16, 19, None);
      var e2 := Entity(Url, 45, 33, None);
      Extract(text, [e1, e2]) == [(url1, e1), (url2, e2)]
  {
    var url1 := "https://example.com";
    var url2 := "https://youtu.be/dQw4w9WgXcQ?t=10";
    var text := "Check this out: " + url1 + " and also " + url2;
    assert text[16..35] == url1;
    assert text[45..78] == url2;
    assert [Entity(Url, 16, 19, None), Entity(Url, 45, 33, None)][1..] == [Entity(Url, 45, 33, None)];
  }

  /** The hidden-link message of the repository's `extract_urls` example: one text link yields its target. */
  lemma TextLinkExample()
    ensures
      var e := Entity(TextLink, 0, 10, Some("https://x.com/user/status/123?s=20"));
      Extract("Click here", [e]) == [("https://x.com/user/status/123?s=20", e)]
  {
  }
}
