/**
 Telegram reports entity offsets and lengths in UTF-16 code units, while a
 Python `str` is indexed by code points. This module measures strings in
 UTF-16 code units and converts a code-unit position back into a character
 index, so that entities can be read against the character string.
 */
module Utf16 {
  import opened Wrappers
  import opened Sequences
  import opened Entities

  /** Code units of one character: two (a surrogate pair) outside the Basic Multilingual Plane. */
  function Units(c: char): nat
  {
    if c as int > 0xFFFF then 2 else 1
  }

  /** Length of `s` in UTF-16 code units. */
  function Length(s: string): nat
  {
    if s == [] then 0 else Units(s[0]) + Length(s[1..])
  }

  lemma {:induction false} LengthAppend(a: string, b: string)
    ensures Length(a + b) == Length(a) + Length(b)
  {
    if a == [] {
      assert a + b == b;
    } else {
      assert (a + b)[0] == a[0];
      assert (a + b)[1..] == a[1..] + b;
      LengthAppend(a[1..], b);
    }
  }

  /**
   The character index at which code-unit position `u` falls: the number
   of leading characters that fit entirely within the first `u` code units.
   */
  function IndexOf(s: string, u: nat): nat
  {
    if s == [] || u < Units(s[0]) then 0 else 1 + IndexOf(s[1..], u - Units(s[0]))
  }

  /** Every character index round-trips through its code-unit position. */
  lemma {:induction false} IndexOfPrefixLength(s: string, i: nat)
    requires i <= |s|
    ensures IndexOf(s, Length(s[..i])) == i
  {
    if i > 0 {
      assert s[..i] == [s[0]] + s[1..][..i - 1];
      LengthAppend([s[0]], s[1..][..i - 1]);
      assert Length([s[0]]) == Units(s[0]);
      IndexOfPrefixLength(s[1..], i - 1);
    } else if s != [] {
      assert s[..0] == [];
    }
  }

  /** Converting never moves backwards: a later code-unit position gives a later or equal index. */
  lemma {:induction false} IndexOfMonotone(s: string, u: nat, v: nat)
    requires u <= v
    ensures IndexOf(s, u) <= IndexOf(s, v)
  {
    if s != [] && u >= Units(s[0]) {
      IndexOfMonotone(s[1..], u - Units(s[0]), v - Units(s[0]));
    }
  }

  lemma {:induction false} IndexOfBound(s: string, u: nat)
    ensures IndexOf(s, u) <= |s|
  {
    if s != [] && u >= Units(s[0]) {
      IndexOfBound(s[1..], u - Units(s[0]));
    }
  }

  /** An entity as Telegram sends it, re-expressed in character positions of `text`. */
  function CharEntity(text: string, e: Entity): (r: Entity)
    ensures r.kind == e.kind && r.url == e.url
    ensures r.offset + r.length <= |text|
  {
    var start := IndexOf(text, e.offset);
    var end := IndexOf(text, e.offset + e.length);
    IndexOfMonotone(text, e.offset, e.offset + e.length);
    IndexOfBound(text, e.offset + e.length);
    e.(offset := start, length := end - start)
  }

  function CharEntities(text: string, entities: seq<Entity>): (r: seq<Entity>)
    ensures |r| == |entities|
    ensures forall k :: 0 <= k < |r| ==> r[k] == CharEntity(text, entities[k])
  {
    seq(|entities|, k requires 0 <= k < |entities| => CharEntity(text, entities[k]))
  }

  /** The code-unit position and length Telegram reports for the characters [i, j) of `text`. */
  function ReportedEntity(text: string, i: nat, j: nat): Entity
    requires i <= j <= |text|
  {
    Entity(Url, Length(text[..i]), Length(text[i..j]), None)
  }

  /** Converting the reported position of the `n` characters at index `i` gives back exactly that range. */
  lemma CharEntityOfReported(text: string, i: nat, n: nat)
    requires i + n <= |text|
    ensures CharEntity(text, ReportedEntity(text, i, i + n)) == Entity(Url, i, n, None)
  {
    var j := i + n;
    var e := ReportedEntity(text, i, j);
    assert e.offset + e.length == Length(text[..j]) by {
      assert text[..j] == text[..i] + text[i..j];
      LengthAppend(text[..i], text[i..j]);
    }
    assert IndexOf(text, e.offset) == i by {
      IndexOfPrefixLength(text, i);
    }
    assert IndexOf(text, e.offset + e.length) == j by {
      IndexOfPrefixLength(text, j);
    }
  }

  /**
   A `Url` entity that Telegram reports for the `n` characters at index `i`
   of the text, measured in code units, is converted back to exactly that
   range, so extraction reads exactly the URL written there.
   */
  lemma ConvertedUrlEntity(text: string, i: nat, n: nat)
    requires i + n <= |text|
    ensures var c := CharEntity(text, ReportedEntity(text, i, i + n));
            && c == Entity(Url, i, n, None)
            && Extract(text, [c]) == [(text[c.offset..c.offset + c.length], c)]
  {
    var c := CharEntity(text, ReportedEntity(text, i, i + n));
    assert c == Entity(Url, i, n, None) by {
      CharEntityOfReported(text, i, n);
    }
    assert Extract(text, [c]) == [(text[c.offset..c.offset + c.length], c)] by {
      ExtractInText(text, c);
    }
  }

  /** Every character of `s` lies in the Basic Multilingual Plane, so each is one code unit. */
  predicate Bmp(s: string)
  {
    forall k :: 0 <= k < |s| ==> s[k] as int <= 0xFFFF
  }

  /** Text without characters outside the Basic Multilingual Plane is as long in code units as in characters. */
  lemma {:induction false} UnitsOfBmp(s: string)
    requires Bmp(s)
    ensures Length(s) == |s|
  {
    if s != [] {
      assert forall k :: 0 <= k < |s[1..]| ==> s[1..][k] == s[k + 1];
      UnitsOfBmp(s[1..]);
    }
  }

  /** On such text a code-unit position is already a character index, clamped to the end. */
  lemma {:induction false} IndexOfBmp(s: string, u: nat)
    requires Bmp(s)
    ensures IndexOf(s, u) == if u <= |s| then u else |s|
  {
    if s != [] && u >= Units(s[0]) {
      assert Units(s[0]) == 1;
      assert Bmp(s[1..]) by {
        assert forall k :: 0 <= k < |s[1..]| ==> s[1..][k] == s[k + 1];
      }
      IndexOfBmp(s[1..], u - 1);
    }
  }

  /** On such text an entity inside the text converts to itself. */
  lemma CharEntityBmp(text: string, e: Entity)
    requires Bmp(text) && e.offset + e.length <= |text|
    ensures CharEntity(text, e) == e
  {
    IndexOfBmp(text, e.offset);
    IndexOfBmp(text, e.offset + e.length);
  }

  /** On such text the conversion leaves a list of entities inside the text as it is. */
  lemma CharEntitiesBmp(text: string, entities: seq<Entity>)
    requires Bmp(text)
    requires forall k :: 0 <= k < |entities| ==> entities[k].offset + entities[k].length <= |text|
    ensures CharEntities(text, entities) == entities
  {
    forall k | 0 <= k < |entities|
      ensures CharEntity(text, entities[k]) == entities[k]
    {
      CharEntityBmp(text, entities[k]);
    }
  }
}
