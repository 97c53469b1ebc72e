/**
 The message that shows Telegram's UTF-16 entity offsets going wrong when
 read as character positions: a URL after one emoji.
 */
module Utf16Example {
  import opened Wrappers
  import opened Sequences
  import opened Entities
  import opened Utf16

  /** A URL after one emoji and a space. */
  const EmojiText: string := "🪲 https://x.com"

  lemma EmojiTextReported()
    ensures |EmojiText| == 15
    ensures ReportedEntity(EmojiText, 2, 15) == Entity(Url, 3, 13, None)
  {
    var text := EmojiText;
    assert text[..2] == [text[0], text[1]];
    assert Length(text[..2]) == 3 by {
      var p := text[..2];
      assert Units(text[0]) == 2 && Units(text[1]) == 1;
      assert p[0] == text[0] && p[1..] == [text[1]];
      assert Length([text[1]]) == Units(text[1]) + Length([text[1]][1..]);
      assert [text[1]][1..] == [];
      assert Length(p) == Units(p[0]) + Length(p[1..]);
    }
    assert Length(text[2..15]) == 13 by {
      UnitsOfBmp(text[2..15]);
    }
  }

  /**
   Reading Telegram's code-unit offsets directly as character indices, as
   `extract_urls` does, misreads a URL that follows an emoji: the range
   starts one character late and the leading "h" is lost, while the
   converted entity reads the URL itself.
   */
  lemma RawOffsetsMissUrl()
    ensures var e := ReportedEntity(EmojiText, 2, 15);
            && Extract(EmojiText, [e]) == [(EmojiText[3..], e)]
            && EmojiText[3..] != EmojiText[2..15]
            && Extract(EmojiText, [CharEntity(EmojiText, e)]) == [(EmojiText[2..15], Entity(Url, 2, 13, None))]
  {
    RawExtraction();
    MisreadDiffers();
    ConvertedExtraction();
  }

  lemma MisreadDiffers()
    ensures EmojiText[3..] != EmojiText[2..15]
  {
    assert EmojiText[3..][0] == 't' && EmojiText[2..15][0] == 'h';
  }

  lemma RawExtraction()
    ensures var e := ReportedEntity(EmojiText, 2, 15);
            Extract(EmojiText, [e]) == [(EmojiText[3..], e)]
  {
    EmojiTextReported();
    var e := Entity(Url, 3, 13, None);
    ExtractSingleUrl(EmojiText, e);
    assert Slice(EmojiText, 3, 16) == EmojiText[3..];
  }

  lemma ConvertedExtraction()
    ensures var e := ReportedEntity(EmojiText, 2, 15);
            Extract(EmojiText, [CharEntity(EmojiText, e)]) == [(EmojiText[2..15], Entity(Url, 2, 13, None))]
  {
    ConvertedUrlEntity(EmojiText, 2, 13);
  }
}
