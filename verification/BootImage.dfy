/** The boot image: an entry address, then sections of size, address and padded data, then a zero size. */
module BootImage {
  import opened Words32

  /** A section as it stands in the image; size is the size field before padding. */
  datatype Section = Section(size: Word, address: Word, words: seq<Word>)

  datatype Image = Image(entry: Word, sections: seq<Section>)

  datatype Parsed = Parsed(sections: seq<Section>, end: nat)

  /** The data words of a section: its size rounded up to whole words, in 32-bit arithmetic,
      so that the three largest sizes wrap to no words at all. */
  function PaddedWords(size: Word): nat {
    (size + 3) / 4 % 0x4000_0000
  }

  /** The data of a section is parsed in full, padding included, unless its size is one of those
      three; then none of it is. */
  lemma PaddingKeepsDataIff(size: Word)
    ensures 4 * PaddedWords(size) >= size <==> size <= 0xFFFF_FFFC
    ensures size <= 0xFFFF_FFFC ==> 4 * PaddedWords(size) < size + 4
    ensures size > 0xFFFF_FFFC ==> PaddedWords(size) == 0
  {
  }

  predicate ValidSection(s: Section) {
    s.size != 0 && |s.words| == PaddedWords(s.size)
  }

  predicate ValidSections(ss: seq<Section>) {
    forall i :: 0 <= i < |ss| ==> ValidSection(ss[i])
  }

  function WordsAt(s: seq<Byte>, at: nat, n: nat): (r: seq<Word>)
    requires at + 4 * n <= |s|
    ensures |r| == n
    ensures forall i :: 0 <= i < n ==> r[i] == WordAt(s, at + 4 * i)
  {
    seq(n, i requires 0 <= i < n => WordAt(s, at + 4 * i))
  }

  /** What the upload loop reads from a size field on; None where it would run off the image. */
  function ParseSections(s: seq<Byte>, at: nat): Option<Parsed>
    decreases |s| - at
  {
    if at + 4 > |s| then None
    else
      var size := WordAt(s, at);
      if size == 0 then Some(Parsed([], at + 4))
      else
        var n := PaddedWords(size);
        if at + 8 + 4 * n > |s| then None
        else
          match ParseSections(s, at + 8 + 4 * n)
          case None => None
          case Some(rest) =>
            var first := Section(size, WordAt(s, at + 4), WordsAt(s, at + 8, n));
            Some(Parsed([first] + rest.sections, rest.end))
  }

  /** For such a size the parser takes the first data word for the next size field: it parses from there
      on as if the section had no data, and if that word is zero it stops there. */
  lemma WrappedSizeMisparses(s: seq<Byte>, at: nat)
    requires at + 12 <= |s| && WordAt(s, at) > 0xFFFF_FFFC
    ensures var empty := Section(WordAt(s, at), WordAt(s, at + 4), []);
            && ParseSections(s, at) == (match ParseSections(s, at + 8)
                                        case None => None
                                        case Some(rest) => Some(Parsed([empty] + rest.sections, rest.end)))
            && (WordAt(s, at + 8) == 0 ==> ParseSections(s, at) == Some(Parsed([empty], at + 12)))
  {
    PaddingKeepsDataIff(WordAt(s, at));
    var empty := Section(WordAt(s, at), WordAt(s, at + 4), []);
    assert WordsAt(s, at + 8, 0) == [] && [empty] + [] == [empty];
  }

  function ParseImage(s: seq<Byte>): Option<Image> {
    if |s| < 4 then None
    else match ParseSections(s, 4)
      case None => None
      case Some(parsed) => Some(Image(WordAt(s, 0), parsed.sections))
  }

  // ----- the table by the places of its fields

  predicate WordIs(s: seq<Byte>, at: nat, w: Word) {
    at + 4 <= |s| && WordAt(s, at) == w
  }

  /** The section stands at this place: size, address, then the data words. */
  predicate Stands(s: seq<Byte>, at: nat, sec: Section) {
    && sec.size != 0 && |sec.words| == (sec.size + 3) / 4 % 0x4000_0000
    && WordIs(s, at, sec.size) && WordIs(s, at + 4, sec.address)
    && forall j :: 0 <= j < |sec.words| ==> WordIs(s, at + 8 + 4 * j, sec.words[j])
  }

  /** Its sections stand one behind the other, and behind them a zero size. */
  predicate IsTable(s: seq<Byte>, at: nat, p: Parsed)
    decreases |p.sections|
  {
    if |p.sections| == 0 then WordIs(s, at, 0) && p.end == at + 4
    else
      && Stands(s, at, p.sections[0])
      && IsTable(s, at + 8 + 4 * |p.sections[0].words|, Parsed(p.sections[1..], p.end))
  }

  lemma StandsMeansRead(s: seq<Byte>, at: nat, sec: Section)
    requires Stands(s, at, sec)
    ensures |sec.words| == PaddedWords(sec.size) && at + 8 + 4 * |sec.words| <= |s|
    ensures WordAt(s, at) == sec.size && WordAt(s, at + 4) == sec.address
    ensures WordsAt(s, at + 8, |sec.words|) == sec.words
  {
    var n := |sec.words|;
    if n > 0 {
      assert WordIs(s, at + 8 + 4 * (n - 1), sec.words[n - 1]);
    }
    forall j | 0 <= j < n ensures sec.words[j] == WordsAt(s, at + 8, n)[j] {
      assert WordIs(s, at + 8 + 4 * j, sec.words[j]);
    }
  }

  lemma ReadMeansStands(s: seq<Byte>, at: nat, n: nat)
    requires at + 8 + 4 * n <= |s| && WordAt(s, at) != 0 && n == PaddedWords(WordAt(s, at))
    ensures Stands(s, at, Section(WordAt(s, at), WordAt(s, at + 4), WordsAt(s, at + 8, n)))
  {
  }

  lemma ParsesCons(s: seq<Byte>, at: nat, sec: Section, rest: Parsed)
    ensures ParseSections(s, at) == Some(Parsed([sec] + rest.sections, rest.end))
            <==> Stands(s, at, sec) && ParseSections(s, at + 8 + 4 * |sec.words|) == Some(rest)
  {
    if Stands(s, at, sec) {
      StandsMeansRead(s, at, sec);
      ConsInjective(sec, rest.sections);
    }
    if ParseSections(s, at) == Some(Parsed([sec] + rest.sections, rest.end)) {
      ConsInjective(sec, rest.sections);
      ReadMeansStands(s, at, PaddedWords(WordAt(s, at)));
    }
  }

  lemma ConsInjective(sec: Section, ss: seq<Section>)
    ensures forall sec': Section, ss': seq<Section> :: [sec'] + ss' == [sec] + ss ==> sec' == sec && ss' == ss
  {
    forall sec': Section, ss': seq<Section> | [sec'] + ss' == [sec] + ss ensures sec' == sec && ss' == ss {
      assert ([sec'] + ss')[0] == sec' && ([sec'] + ss')[1..] == ss' && ([sec] + ss)[1..] == ss;
    }
  }

  lemma ParsesEmpty(s: seq<Byte>, at: nat, end: nat)
    ensures ParseSections(s, at) == Some(Parsed([], end)) <==> IsTable(s, at, Parsed([], end))
  {
  }

  /** The parser finds a table exactly when the bytes are one: each size, address and data word in
      its place, and a zero size behind them. */
  lemma {:induction false} ParsesIffTable(s: seq<Byte>, at: nat, p: Parsed)
    ensures ParseSections(s, at) == Some(p) <==> IsTable(s, at, p)
    decreases |p.sections|
  {
    if p.sections == [] {
      ParsesEmpty(s, at, p.end);
    } else {
      var sec, rest := p.sections[0], Parsed(p.sections[1..], p.end);
      assert p == Parsed([sec] + rest.sections, rest.end);
      ParsesCons(s, at, sec, rest);
      ParsesIffTable(s, at + 8 + 4 * |sec.words|, rest);
    }
  }

  /** The parser finds an image exactly when a table stands behind the entry word. */
  lemma ParsesIffImage(s: seq<Byte>, image: Image)
    ensures ParseImage(s) == Some(image)
            <==> WordIs(s, 0, image.entry) && exists end: nat :: IsTable(s, 4, Parsed(image.sections, end))
  {
    if ParseImage(s) == Some(image) {
      var p := ParseSections(s, 4).value;
      ParsesIffTable(s, 4, p);
      assert IsTable(s, 4, Parsed(image.sections, p.end));
    }
    if end: nat :| IsTable(s, 4, Parsed(image.sections, end)) {
      ParsesIffTable(s, 4, Parsed(image.sections, end));
    }
  }

  function EncodeWords(ws: seq<Word>): (s: seq<Byte>)
    ensures |s| == 4 * |ws|
  {
    if |ws| == 0 then [] else WordBytes(ws[0]) + EncodeWords(ws[1..])
  }

  function EncodeSection(s: Section): (b: seq<Byte>)
    ensures |b| == 8 + 4 * |s.words|
  {
    WordBytes(s.size) + WordBytes(s.address) + EncodeWords(s.words)
  }

  function EncodeSections(ss: seq<Section>): (s: seq<Byte>)
    ensures |s| >= 4
  {
    if |ss| == 0 then WordBytes(0) else EncodeSection(ss[0]) + EncodeSections(ss[1..])
  }

  function EncodeImage(image: Image): seq<Byte> {
    WordBytes(image.entry) + EncodeSections(image.sections)
  }

  // ----- round trips

  lemma {:induction false} WordsRoundTrip(before: seq<Byte>, ws: seq<Word>, after: seq<Byte>)
    ensures WordsAt(before + EncodeWords(ws) + after, |before|, |ws|) == ws
    decreases |ws|
  {
    if |ws| > 0 {
      var s := before + EncodeWords(ws) + after;
      var rest := EncodeWords(ws[1..]) + after;
      assert s == before + WordBytes(ws[0]) + rest;
      WordRoundTrip(before, ws[0], rest);
      assert s == (before + WordBytes(ws[0])) + EncodeWords(ws[1..]) + after;
      WordsRoundTrip(before + WordBytes(ws[0]), ws[1..], after);
      var all, tail := WordsAt(s, |before|, |ws|), WordsAt(s, |before| + 4, |ws| - 1);
      forall i | 0 <= i < |ws| ensures all[i] == ws[i] {
        if i > 0 { assert all[i] == tail[i - 1] == ws[1..][i - 1]; }
      }
    }
  }

  lemma Regroup(before: seq<Byte>, a: seq<Byte>, b: seq<Byte>, c: seq<Byte>, after: seq<Byte>)
    ensures before + (a + b + c) + after == before + a + (b + c + after)
    ensures before + (a + b + c) + after == (before + a) + b + (c + after)
    ensures before + (a + b + c) + after == (before + a + b) + c + after
  {
  }

  lemma SectionFields(before: seq<Byte>, sec: Section, after: seq<Byte>)
    ensures var s, n := before + EncodeSection(sec) + after, |before|;
            && WordAt(s, n) == sec.size && WordAt(s, n + 4) == sec.address
            && WordsAt(s, n + 8, |sec.words|) == sec.words
  {
    var a, b, c := WordBytes(sec.size), WordBytes(sec.address), EncodeWords(sec.words);
    Regroup(before, a, b, c, after);
    WordRoundTrip(before, sec.size, b + c + after);
    WordRoundTrip(before + a, sec.address, c + after);
    WordsRoundTrip(before + a + b, sec.words, after);
  }

  lemma ParseEnd(before: seq<Byte>, after: seq<Byte>)
    ensures ParseSections(before + WordBytes(0) + after, |before|) == Some(Parsed([], |before| + 4))
  {
    WordRoundTrip(before, 0, after);
  }

  lemma Reassociate(before: seq<Byte>, code: seq<Byte>, rest: seq<Byte>, after: seq<Byte>)
    ensures before + (code + rest) + after == (before + code) + rest + after == before + code + (rest + after)
  {
  }

  lemma SectionsStep(before: seq<Byte>, sec: Section, tail: seq<Section>, rest: seq<Byte>, after: seq<Byte>)
    requires ValidSection(sec)
    requires var code := EncodeSection(sec);
             ParseSections((before + code) + rest + after, |before + code|)
                 == Some(Parsed(tail, |before + code| + |rest|))
    ensures var code := EncodeSection(sec);
            ParseSections(before + (code + rest) + after, |before|)
                == Some(Parsed([sec] + tail, |before| + |code + rest|))
  {
    var code := EncodeSection(sec);
    Reassociate(before, code, rest, after);
    ParseEncoded(before, sec, rest + after, Parsed(tail, |before| + |code| + |rest|));
  }

  predicate ParsesBack(before: seq<Byte>, ss: seq<Section>, after: seq<Byte>) {
    ParseSections(before + EncodeSections(ss) + after, |before|) == Some(Parsed(ss, |before| + |EncodeSections(ss)|))
  }

  lemma EncodeCons(sec: Section, ss: seq<Section>)
    ensures EncodeSections([sec] + ss) == EncodeSection(sec) + EncodeSections(ss)
  {
  }

  lemma ParsesBackStep(before: seq<Byte>, sec: Section, tail: seq<Section>, after: seq<Byte>)
    requires ValidSection(sec) && ParsesBack(before + EncodeSection(sec), tail, after)
    ensures ParsesBack(before, [sec] + tail, after)
  {
    SectionsStep(before, sec, tail, EncodeSections(tail), after);
    EncodeCons(sec, tail);
  }

  /** Parsing an encoded table gives its sections back and stops exactly at its end,
      whatever stands before and after it. */
  lemma {:induction false} SectionsRoundTrip(before: seq<Byte>, ss: seq<Section>, after: seq<Byte>)
    requires ValidSections(ss)
    ensures ParsesBack(before, ss, after)
    decreases |ss|
  {
    if |ss| == 0 {
      ParseEnd(before, after);
    } else {
      SectionsRoundTrip(before + EncodeSection(ss[0]), ss[1..], after);
      ParsesBackStep(before, ss[0], ss[1..], after);
      assert [ss[0]] + ss[1..] == ss;
    }
  }

  lemma ParseEncoded(before: seq<Byte>, sec: Section, after: seq<Byte>, rest: Parsed)
    requires ValidSection(sec)
    requires ParseSections(before + EncodeSection(sec) + after, |before| + 8 + 4 * |sec.words|) == Some(rest)
    ensures ParseSections(before + EncodeSection(sec) + after, |before|)
            == Some(Parsed([sec] + rest.sections, rest.end))
  {
    SectionFields(before, sec, after);
    ParseOneMore(before + EncodeSection(sec) + after, |before|, sec, rest);
  }

  lemma ParseOneMore(s: seq<Byte>, at: nat, sec: Section, rest: Parsed)
    requires ValidSection(sec) && at + 8 + 4 * |sec.words| <= |s|
    requires WordAt(s, at) == sec.size && WordAt(s, at + 4) == sec.address
    requires WordsAt(s, at + 8, |sec.words|) == sec.words
    requires ParseSections(s, at + 8 + 4 * |sec.words|) == Some(rest)
    ensures ParseSections(s, at) == Some(Parsed([sec] + rest.sections, rest.end))
  {
  }

  /** Decoding inverts encoding, and bytes behind the table are never looked at. */
  lemma ImageRoundTrip(image: Image, after: seq<Byte>)
    requires ValidSections(image.sections)
    ensures ParseImage(EncodeImage(image) + after) == Some(image)
  {
    var s := EncodeImage(image) + after;
    var table := EncodeSections(image.sections);
    assert s == [] + WordBytes(image.entry) + (table + after);
    WordRoundTrip([], image.entry, table + after);
    assert s == WordBytes(image.entry) + table + after;
    SectionsRoundTrip(WordBytes(image.entry), image.sections, after);
  }

  lemma {:induction false} EncodeWordsAt(s: seq<Byte>, at: nat, n: nat)
    requires at + 4 * n <= |s|
    ensures EncodeWords(WordsAt(s, at, n)) == s[at..at + 4 * n]
    decreases n
  {
    if n > 0 {
      var ws := WordsAt(s, at, n);
      assert ws[1..] == WordsAt(s, at + 4, n - 1);
      EncodeWordsAt(s, at + 4, n - 1);
      BytesRoundTrip(s, at);
      assert s[at..at + 4 * n] == s[at..at + 4] + s[at + 4..at + 4 * n];
    }
  }

  lemma EncodeSectionAt(s: seq<Byte>, at: nat, n: nat)
    requires at + 8 + 4 * n <= |s|
    ensures EncodeSection(Section(WordAt(s, at), WordAt(s, at + 4), WordsAt(s, at + 8, n))) == s[at..at + 8 + 4 * n]
  {
    BytesRoundTrip(s, at);
    BytesRoundTrip(s, at + 4);
    EncodeWordsAt(s, at + 8, n);
    assert s[at..at + 8 + 4 * n] == s[at..at + 4] + s[at + 4..at + 8] + s[at + 8..at + 8 + 4 * n];
  }

  /** Encoding inverts decoding: the bytes the parser consumed are the encoding of what it found. */
  lemma {:induction false} ParseThenEncode(s: seq<Byte>, at: nat)
    requires ParseSections(s, at).Some?
    ensures var p := ParseSections(s, at).value;
            && ValidSections(p.sections) && at < p.end <= |s|
            && EncodeSections(p.sections) == s[at..p.end]
    decreases |s| - at
  {
    var size := WordAt(s, at);
    if size == 0 {
      BytesRoundTrip(s, at);
    } else {
      var n := PaddedWords(size);
      ParseThenEncode(s, at + 8 + 4 * n);
      EncodeParsed(s, at, n, ParseSections(s, at + 8 + 4 * n).value);
    }
  }

  lemma EncodeParsed(s: seq<Byte>, at: nat, n: nat, rest: Parsed)
    requires at + 8 + 4 * n < rest.end <= |s| && EncodeSections(rest.sections) == s[at + 8 + 4 * n..rest.end]
    ensures var first := Section(WordAt(s, at), WordAt(s, at + 4), WordsAt(s, at + 8, n));
            EncodeSections([first] + rest.sections) == s[at..rest.end]
  {
    EncodeSectionAt(s, at, n);
    JoinSlices(s, at, at + 8 + 4 * n, rest.end);
    EncodeCons(Section(WordAt(s, at), WordAt(s, at + 4), WordsAt(s, at + 8, n)), rest.sections);
  }

  lemma JoinSlices(s: seq<Byte>, a: nat, b: nat, c: nat)
    requires a <= b <= c <= |s|
    ensures s[a..c] == s[a..b] + s[b..c]
  {
  }
}
