/**
 Rebuilding the message body in `handle_message`: in-place replacement of
 `Url` entities, processed in descending offset order, and the trailing
 block of cleaned `TextLink` targets.
 */
module Reconstruct {
  import opened Sequences
  import opened Entities

  /** The text put in front of the appended cleaned text-link targets. */
  const CleanedLinksHeader: string := "\n\nCleaned links:\n"

  function Offset(p: Found): nat
  {
    p.1.offset
  }

  function End(p: Found): nat
  {
    p.1.offset + p.1.length
  }

  predicate IsUrlPair(p: Found)
  {
    p.1.kind == Url
  }

  /** The pairs that come from `Url` entities, in their original order. */
  function UrlPairs(s: seq<Found>): seq<Found>
  {
    if s == [] then [] else (if IsUrlPair(s[0]) then [s[0]] else []) + UrlPairs(s[1..])
  }

  /** The `Url` pairs are exactly the members of `s` that come from `Url` entities. */
  lemma {:induction false} UrlPairsMembers(s: seq<Found>)
    ensures forall p :: p in UrlPairs(s) <==> p in s && IsUrlPair(p)
  {
    if s != [] {
      UrlPairsMembers(s[1..]);
      assert s == [s[0]] + s[1..];
    }
  }

  lemma UrlPairsCons(y: Found, rest: seq<Found>)
    ensures UrlPairs([y] + rest) == (if IsUrlPair(y) then [y] else []) + UrlPairs(rest)
  {
    assert ([y] + rest)[0] == y;
    assert ([y] + rest)[1..] == rest;
  }

  ghost predicate SortedDesc(s: seq<Found>)
  {
    forall i, j :: 0 <= i < j < |s| ==> Offset(s[i]) >= Offset(s[j])
  }

  /** Puts `x` in front of the first element whose offset is not larger, so equal offsets keep their order. */
  function Insert(x: Found, t: seq<Found>): (r: seq<Found>)
    ensures multiset(r) == multiset(t) + multiset{x}
  {
    if t == [] then [x]
    else if Offset(t[0]) <= Offset(x) then [x] + t
    else
      assert t == [t[0]] + t[1..];
      [t[0]] + Insert(x, t[1..])
  }

  lemma InsertMembers(x: Found, t: seq<Found>)
    ensures forall y :: y in Insert(x, t) ==> y == x || y in t
  {
    var r := Insert(x, t);
    forall y | y in r
      ensures y == x || y in t
    {
      assert y in multiset(r);
    }
  }

  /** Prepending an element that is at least as large as every element keeps a sequence sorted. */
  lemma ConsSorted(y: Found, rest: seq<Found>)
    requires SortedDesc(rest)
    requires forall z :: z in rest ==> Offset(z) <= Offset(y)
    ensures SortedDesc([y] + rest)
  {
    var r := [y] + rest;
    forall i, j | 0 <= i < j < |r|
      ensures Offset(r[i]) >= Offset(r[j])
    {
      assert r[j] == rest[j - 1];
      assert r[j] in rest;
      if i > 0 {
        assert r[i] == rest[i - 1];
      }
    }
  }

  lemma {:induction false} InsertKeepsSorted(x: Found, t: seq<Found>)
    requires SortedDesc(t)
    ensures SortedDesc(Insert(x, t))
  {
    if t == [] {
    } else if Offset(t[0]) <= Offset(x) {
      SortedTail([x] + t);
      assert ([x] + t)[1..] == t;
      forall z | z in t
        ensures Offset(z) <= Offset(x)
      {
        SortedTail(t);
      }
      ConsSorted(x, t);
    } else {
      SortedTail(t);
      var rest := Insert(x, t[1..]);
      InsertKeepsSorted(x, t[1..]);
      InsertMembers(x, t[1..]);
      assert forall z :: z in t[1..] ==> z in t;
      ConsSorted(t[0], rest);
    }
  }

  /**
   `sorted(pairs, key=offset, reverse=True)`: a stable sort by descending
   offset, built by inserting each element in front of the sorted rest.
   */
  function SortDesc(s: seq<Found>): (r: seq<Found>)
    ensures SortedDesc(r)
    ensures multiset(r) == multiset(s)
  {
    if s == [] then []
    else
      assert s == [s[0]] + s[1..];
      InsertKeepsSorted(s[0], SortDesc(s[1..]));
      Insert(s[0], SortDesc(s[1..]))
  }

  /** `cleaned_mapping.get(original_url, original_url)`. */
  function Replacement(mapping: map<string, string>, url: string): string
  {
    if url in mapping then mapping[url] else url
  }

  /** `t[:offset] + r + t[offset + length:]`. */
  function SpliceAt(t: string, offset: nat, length: nat, r: string): string
  {
    Take(t, offset) + r + Drop(t, offset + length)
  }

  /** One iteration of the splicing loop: a `Url` entity's range is replaced, anything else is skipped. */
  function SpliceOne(t: string, p: Found, mapping: map<string, string>): string
  {
    if IsUrlPair(p) then SpliceAt(t, p.1.offset, p.1.length, Replacement(mapping, p.0))
    else t
  }

  function SpliceAll(t: string, s: seq<Found>, mapping: map<string, string>): string
    decreases |s|
  {
    if s == [] then t else SpliceAll(SpliceOne(t, s[0], mapping), s[1..], mapping)
  }

  /** The body after the splicing loop of `handle_message`. */
  function CleanedBody(text: string, found: seq<Found>, mapping: map<string, string>): string
  {
    SpliceAll(text, SortDesc(found), mapping)
  }

  /**
   Reference reading of the same replacement, left to right: copy the text
   between consecutive ranges and put each range's replacement in its place.
   */
  function Rebuild(text: string, us: seq<Found>, from: nat, mapping: map<string, string>): string
    decreases |us|
  {
    if us == [] then Drop(text, from)
    else Slice(text, from, Offset(us[0])) + Replacement(mapping, us[0].0) + Rebuild(text, us[1..], End(us[0]), mapping)
  }

  /** The ranges lie inside the text, in strictly ascending order, without overlapping. */
  ghost predicate WellPlaced(text: string, us: seq<Found>)
  {
    && (forall k :: 0 <= k < |us| ==> End(us[k]) <= |text|)
    && (forall i, j :: 0 <= i < j < |us| ==> End(us[i]) <= Offset(us[j]) && Offset(us[i]) < Offset(us[j]))
  }

  lemma {:induction false} SpliceSkipsOthers(t: string, s: seq<Found>, mapping: map<string, string>)
    ensures SpliceAll(t, s, mapping) == SpliceAll(t, UrlPairs(s), mapping)
    decreases |s|
  {
    if s != [] {
      SpliceSkipsOthers(SpliceOne(t, s[0], mapping), s[1..], mapping);
      if IsUrlPair(s[0]) {
        var u := [s[0]] + UrlPairs(s[1..]);
        assert u[0] == s[0] && u[1..] == UrlPairs(s[1..]);
      } else {
        assert UrlPairs(s) == UrlPairs(s[1..]);
      }
    }
  }

  lemma {:induction false} SpliceAllSnoc(t: string, a: seq<Found>, x: Found, mapping: map<string, string>)
    ensures SpliceAll(t, a + [x], mapping) == SpliceOne(SpliceAll(t, a, mapping), x, mapping)
    decreases |a|
  {
    if a == [] {
      assert [] + [x] == [x];
      assert [x][1..] == [];
    } else {
      assert (a + [x])[0] == a[0];
      assert (a + [x])[1..] == a[1..] + [x];
      SpliceAllSnoc(SpliceOne(t, a[0], mapping), a[1..], x, mapping);
    }
  }

  lemma {:induction false} UrlPairsEmpty(t: seq<Found>)
    requires forall y :: y in t ==> !IsUrlPair(y)
    ensures UrlPairs(t) == []
  {
    if t != [] {
      assert t[0] in t;
      assert forall y :: y in t[1..] ==> y in t;
      UrlPairsEmpty(t[1..]);
    }
  }

  lemma {:induction false} UrlPairsOfInsertOther(x: Found, t: seq<Found>)
    requires !IsUrlPair(x)
    ensures UrlPairs(Insert(x, t)) == UrlPairs(t)
  {
    if t == [] {
      assert UrlPairs([x]) == UrlPairs([x][1..]);
    } else if Offset(t[0]) <= Offset(x) {
      assert ([x] + t)[1..] == t;
    } else {
      var r := [t[0]] + Insert(x, t[1..]);
      assert r[0] == t[0] && r[1..] == Insert(x, t[1..]);
      UrlPairsOfInsertOther(x, t[1..]);
    }
  }

  lemma SortedTail(t: seq<Found>)
    requires SortedDesc(t) && t != []
    ensures SortedDesc(t[1..])
    ensures forall y :: y in t ==> Offset(y) <= Offset(t[0])
  {
    forall i, j | 0 <= i < j < |t[1..]|
      ensures Offset(t[1..][i]) >= Offset(t[1..][j])
    {
      assert t[1..][i] == t[i + 1] && t[1..][j] == t[j + 1];
    }
    forall y | y in t
      ensures Offset(y) <= Offset(t[0])
    {
      var k :| 0 <= k < |t| && t[k] == y;
    }
  }

  /** Every `Url` pair of `t` lies strictly to the right of `x`. */
  ghost predicate UrlPairsAfter(t: seq<Found>, x: Found)
  {
    forall y :: y in t && IsUrlPair(y) ==> Offset(y) > Offset(x)
  }

  lemma UrlPairsAfterTail(t: seq<Found>, x: Found)
    requires t != [] && UrlPairsAfter(t, x)
    ensures UrlPairsAfter(t[1..], x)
  {
    assert forall y :: y in t[1..] ==> y in t;
  }

  lemma UrlPairsOfInsertFront(x: Found, t: seq<Found>)
    requires IsUrlPair(x) && t != []
    requires SortedDesc(t) && UrlPairsAfter(t, x)
    requires Offset(t[0]) <= Offset(x)
    ensures UrlPairs(Insert(x, t)) == UrlPairs(t) + [x]
  {
    SortedTail(t);
    UrlPairsEmpty(t);
    assert ([x] + t)[1..] == t;
  }

  lemma {:induction false} UrlPairsOfInsertUrl(x: Found, t: seq<Found>)
    requires IsUrlPair(x)
    requires SortedDesc(t)
    requires UrlPairsAfter(t, x)
    ensures UrlPairs(Insert(x, t)) == UrlPairs(t) + [x]
  {
    if t == [] {
      assert UrlPairs([x]) == [x] + UrlPairs([]);
    } else if Offset(t[0]) <= Offset(x) {
      UrlPairsOfInsertFront(x, t);
    } else {
      var rest := Insert(x, t[1..]);
      var head := if IsUrlPair(t[0]) then [t[0]] else [];
      assert UrlPairs(rest) == UrlPairs(t[1..]) + [x] by {
        SortedTail(t);
        UrlPairsAfterTail(t, x);
        UrlPairsOfInsertUrl(x, t[1..]);
      }
      calc {
        UrlPairs(Insert(x, t));
        UrlPairs([t[0]] + rest);
      == { UrlPairsCons(t[0], rest); }
        head + UrlPairs(rest);
      ==
        (head + UrlPairs(t[1..])) + [x];
      ==
        UrlPairs(t) + [x];
      }
    }
  }

  ghost predicate Ascending(us: seq<Found>)
  {
    forall i, j :: 0 <= i < j < |us| ==> Offset(us[i]) < Offset(us[j])
  }

  lemma AscendingTail(u: seq<Found>)
    requires Ascending(u) && u != []
    ensures Ascending(u[1..])
    ensures forall y :: y in u[1..] ==> Offset(y) > Offset(u[0])
  {
    var tail := u[1..];
    forall i, j | 0 <= i < j < |tail|
      ensures Offset(tail[i]) < Offset(tail[j])
    {
      assert tail[i] == u[i + 1] && tail[j] == u[j + 1];
    }
    forall y | y in tail
      ensures Offset(y) > Offset(u[0])
    {
      var k :| 0 <= k < |tail| && tail[k] == y;
      assert u[k + 1] == y;
    }
  }

  /** The `Url` pairs of a permutation of `s` are among the `Url` pairs of `s`. */
  lemma UrlPairsOfPermutation(t: seq<Found>, s: seq<Found>, x: Found)
    requires multiset(t) == multiset(s)
    requires forall y :: y in UrlPairs(s) ==> Offset(y) > Offset(x)
    ensures UrlPairsAfter(t, x)
  {
    forall y | y in t && IsUrlPair(y)
      ensures Offset(y) > Offset(x)
    {
      assert y in multiset(t);
      assert y in s;
      UrlPairsMembers(s);
    }
  }

  /**
   When the `Url` pairs are in strictly ascending offset order, the stable
   descending sort visits them in exactly the reverse order.
   */
  lemma {:induction false} UrlPairsOfSortDesc(s: seq<Found>)
    requires Ascending(UrlPairs(s))
    ensures UrlPairs(SortDesc(s)) == Reverse(UrlPairs(s))
  {
    if s != [] {
      var x := s[0];
      var t := SortDesc(s[1..]);
      var tail := UrlPairs(s[1..]);
      if IsUrlPair(x) {
        var u := [x] + tail;
        assert UrlPairs(s) == u;
        assert u[1..] == tail;
        AscendingTail(u);
        UrlPairsOfSortDesc(s[1..]);
        UrlPairsOfPermutation(t, s[1..], x);
        UrlPairsOfInsertUrl(x, t);
        assert Reverse(u) == Reverse(u[1..]) + [u[0]];
      } else {
        assert UrlPairs(s) == tail;
        UrlPairsOfSortDesc(s[1..]);
        UrlPairsOfInsertOther(x, t);
      }
    }
  }

  lemma WellPlacedTail(text: string, us: seq<Found>)
    requires WellPlaced(text, us) && us != []
    ensures WellPlaced(text, us[1..])
    ensures us[1..] != [] ==> End(us[0]) <= Offset(us[1..][0])
  {
    var rest := us[1..];
    forall k | 0 <= k < |rest|
      ensures End(rest[k]) <= |text|
    {
      assert rest[k] == us[k + 1];
    }
    forall i, j | 0 <= i < j < |rest|
      ensures End(rest[i]) <= Offset(rest[j]) && Offset(rest[i]) < Offset(rest[j])
    {
      assert rest[i] == us[i + 1] && rest[j] == us[j + 1];
    }
  }

  /** Splicing one range into a text whose prefix up to the range's end is still the original. */
  lemma SpliceIntoPrefix(text: string, u: Found, from: nat, r: string, mapping: map<string, string>)
    requires IsUrlPair(u)
    requires from <= Offset(u) && End(u) <= |text|
    ensures SpliceOne(text[..End(u)] + r, u, mapping)
            == Take(text, from) + (Slice(text, from, Offset(u)) + Replacement(mapping, u.0) + r)
  {
    var x := text[..End(u)] + r;
    var rep := Replacement(mapping, u.0);
    assert Take(x, Offset(u)) == text[..Offset(u)] by {
      assert Take(x, Offset(u)) == x[..Offset(u)];
    }
    assert Drop(x, End(u)) == r by {
      assert Drop(x, End(u)) == x[End(u)..];
    }
    assert Take(text, from) + Slice(text, from, Offset(u)) == text[..Offset(u)] by {
      assert Slice(text, from, Offset(u)) == text[from..Offset(u)];
    }
    calc {
      SpliceOne(x, u, mapping);
      Take(x, Offset(u)) + rep + Drop(x, End(u));
      text[..Offset(u)] + rep + r;
      (Take(text, from) + Slice(text, from, Offset(u))) + rep + r;
      Take(text, from) + (Slice(text, from, Offset(u)) + rep + r);
    }
  }

  /** Splicing a well-placed list of `Url` pairs from the last to the first agrees with the left-to-right reading. */
  lemma {:induction false} SpliceReversed(text: string, us: seq<Found>, from: nat, mapping: map<string, string>)
    requires WellPlaced(text, us)
    requires forall k :: 0 <= k < |us| ==> IsUrlPair(us[k])
    requires from <= |text|
    requires us != [] ==> from <= Offset(us[0])
    ensures SpliceAll(text, Reverse(us), mapping) == Take(text, from) + Rebuild(text, us, from, mapping)
    decreases |us|
  {
    if us == [] {
      assert text == text[..from] + text[from..];
    } else {
      var u0 := us[0];
      var rest := us[1..];
      WellPlacedTail(text, us);
      assert forall k :: 0 <= k < |rest| ==> rest[k] == us[k + 1];
      SpliceReversed(text, rest, End(u0), mapping);
      assert Reverse(us) == Reverse(rest) + [u0];
      SpliceAllSnoc(text, Reverse(rest), u0, mapping);
      SpliceIntoPrefix(text, u0, from, Rebuild(text, rest, End(u0), mapping), mapping);
    }
  }

  /**
   For `Url` entities that lie inside the text, in ascending order and
   without overlapping, the descending-offset splicing loop replaces each
   entity's range by its mapped value (the original when unmapped) and
   leaves all text outside those ranges as it was; other entities change
   nothing in the body.
   */
  lemma CleanedBodyReplacesRanges(text: string, found: seq<Found>, mapping: map<string, string>)
    requires WellPlaced(text, UrlPairs(found))
    ensures CleanedBody(text, found, mapping) == Rebuild(text, UrlPairs(found), 0, mapping)
  {
    var us := UrlPairs(found);
    SpliceSkipsOthers(text, SortDesc(found), mapping);
    UrlPairsOfSortDesc(found);
    UrlPairsMembers(found);
    forall k | 0 <= k < |us|
      ensures IsUrlPair(us[k])
    {
      assert us[k] in us;
    }
    SpliceReversed(text, us, 0, mapping);
    assert Take(text, 0) == [];
  }

  /** One well-placed `Url` pair: the body is the text with that one range replaced. */
  lemma CleanedBodySingle(text: string, p: Found, mapping: map<string, string>)
    requires IsUrlPair(p) && End(p) <= |text|
    ensures CleanedBody(text, [p], mapping) == SpliceAt(text, p.1.offset, p.1.length, Replacement(mapping, p.0))
  {
    assert [p][1..] == [];
    assert SortDesc([p]) == [p] by {
      assert SortDesc([p]) == Insert(p, SortDesc([]));
    }
    assert SpliceAll(text, [p], mapping) == SpliceAll(SpliceOne(text, p, mapping), [], mapping);
  }

  /** Without `Url` entities the body is the original text. */
  lemma BodyWithoutUrlEntities(text: string, found: seq<Found>, mapping: map<string, string>)
    requires UrlPairs(found) == []
    ensures CleanedBody(text, found, mapping) == text
  {
    SpliceSkipsOthers(text, SortDesc(found), mapping);
    UrlPairsOfSortDesc(found);
  }

  /**
   The extra links list: for every `TextLink` pair in entity order whose
   URL has a non-empty mapped value, that value.
   */
  function ExtraLinks(found: seq<Found>, mapping: map<string, string>): (r: seq<string>)
    ensures |r| <= |found|
    ensures forall k :: 0 <= k < |r| ==> r[k] != "" && r[k] in mapping.Values
  {
    if found == [] then []
    else
      var p := found[0];
      (if p.1.kind == TextLink && p.0 in mapping && mapping[p.0] != "" then [mapping[p.0]] else [])
      + ExtraLinks(found[1..], mapping)
  }

  /** `"\n".join(items)`. */
  function Join(items: seq<string>): string
  {
    if items == [] then ""
    else if |items| == 1 then items[0]
    else items[0] + "\n" + Join(items[1..])
  }
}
