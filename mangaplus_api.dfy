/**
 * The request-side logic of `MangaPlus` (src/mangadlmao/apis/mangaplus.py):
 * request spacing, URL matching, chapter-number derivation in
 * `get_details`, page numbering in `get_pages`, the cyclic-XOR `decrypt`,
 * and the file name and outcome of `download_page`.
 */
module MangaPlusApi {
  import opened Common

  /** One second between requests, in milliseconds. */
  const Spacing := 1000

  /** The time of the last request, against an integer millisecond monotonic clock. */
  class MangaPlusLimiter {
    var now: int
    var lastRequest: int

    constructor (start: int)
      ensures now == start && lastRequest == 0
    {
      now := start;
      lastRequest := 0;
    }

    /** One wrapped request: wait until a second after the last one, then stamp its end, raising or not. */
    method Request(duration: nat) returns (sent: int)
      modifies this
      ensures sent == Max(old(now), old(lastRequest) + Spacing)
      ensures now == sent + duration && lastRequest == now
    {
      now := Max(now, lastRequest + Spacing);
      sent := now;
      now := now + duration;
      lastRequest := now;
    }
  }

  // ---------------------------------------------------------------- match

  /** The pattern `^https://mangaplus.shueisha.co.jp/titles/` before the id group, lower-cased. */
  const UrlPrefix := "https://mangaplus.shueisha.co.jp/titles/"

  /** One pattern character against one URL character: `.` is the regex wildcard, the rest compare caselessly. */
  predicate PatternChar(p: char, c: char)
  {
    if p == '.' then c != '\n' else Lower(c) == p
  }

  predicate PrefixMatches(url: string)
  {
    |url| >= |UrlPrefix| && forall i :: 0 <= i < |UrlPrefix| ==> PatternChar(UrlPrefix[i], url[i])
  }

  /** The longest run of ASCII digits at the start of `s`. */
  function LeadingDigits(s: string): (d: string)
    ensures d <= s && AllDigits(d)
    ensures |d| < |s| ==> !IsDigit(s[|d|])
  {
    if s != [] && IsDigit(s[0]) then [s[0]] + LeadingDigits(s[1..]) else []
  }

  /** `match`: the manga id after the title URL prefix, or None. */
  function Match(url: string): (r: Option<nat>)
    ensures r.Some? <==> PrefixMatches(url) && |url| > |UrlPrefix| && IsDigit(url[|UrlPrefix|])
    ensures r.Some? ==> r.value == DigitsValue(LeadingDigits(url[|UrlPrefix|..]))
  {
    if PrefixMatches(url) && |url| > |UrlPrefix| && IsDigit(url[|UrlPrefix|])
    then Some(DigitsValue(LeadingDigits(url[|UrlPrefix|..])))
    else None
  }

  /** The id of a title URL reads back whatever follows the digits. */
  lemma MatchTitleUrl(id: nat, rest: string)
    requires rest == [] || !IsDigit(rest[0])
    ensures Match(UrlPrefix + NatToString(id) + rest) == Some(id)
  {
    var tail := NatToString(id) + rest;
    Concat3(UrlPrefix, NatToString(id), rest);
    PrefixMatchesItself(tail);
    assert (UrlPrefix + tail)[|UrlPrefix|..] == tail;
    LeadingDigitsOf(NatToString(id), rest);
  }

  /** The pattern's letters are all lower case, so the prefix matches itself. */
  lemma PrefixMatchesItself(tail: string)
    ensures PrefixMatches(UrlPrefix + tail)
  {
    var url := UrlPrefix + tail;
    forall i | 0 <= i < |UrlPrefix| ensures PatternChar(UrlPrefix[i], url[i]) {
      assert url[i] == UrlPrefix[i];
    }
  }

  lemma {:induction false} LeadingDigitsOf(d: string, rest: string)
    requires AllDigits(d) && (rest == [] || !IsDigit(rest[0]))
    ensures LeadingDigits(d + rest) == d
  {
    if d != [] {
      assert (d + rest)[1..] == d[1..] + rest;
      LeadingDigitsOf(d[1..], rest);
    } else {
      assert d + rest == rest;
    }
  }

  /** The dots of the pattern are not escaped, so any character stands in for them. */
  lemma DotMatchesAnyCharacter()
    ensures Match("https://mangaplusXshueisha.co.jp/titles/7") == Some(7)
  {
    var url := "https://mangaplusXshueisha.co.jp/titles/7";
    assert PrefixMatches(url);
    assert url[|UrlPrefix|..] == "7";
    assert LeadingDigits("7") == "7";
  }

  // ---------------------------------------------------------- get_details

  /** The fields of one `firstChapterList`/`lastChapterList` entry that are read. */
  datatype TitleChapter = TitleChapter(chapterId: int, name: string, subTitle: string, startTimeStamp: int)

  /** A chapter as `get_details` returns it; `number` is in hundredths. */
  datatype Chapter = Chapter(id: int, title: string, number: int, time: int)

  /** `s.lstrip("#")`. */
  function StripHashes(s: string): (r: string)
    ensures r <= s || |r| < |s|
  {
    if s != [] && s[0] == '#' then StripHashes(s[1..]) else s
  }

  /** `float(name.lstrip("#"))`, in hundredths. */
  function NameNumber(name: string): Option<int>
  {
    match ParseNumber(StripHashes(name))
    case Some(n) => Some(n)
    case None => None
  }

  predicate IsEx(name: string)
  {
    LowerString(name) == "ex"
  }

  /** Length of the leading run of characters that are neither digits nor whitespace. */
  function NonDigitRun(s: string): (k: nat)
    ensures k <= |s| && (k < |s| ==> IsDigit(s[k]) || IsSpace(s[k]))
    ensures forall i :: 0 <= i < k ==> !IsDigit(s[i]) && !IsSpace(s[i])
  {
    if s != [] && !IsDigit(s[0]) && !IsSpace(s[0]) then 1 + NonDigitRun(s[1..]) else 0
  }

  /** `\d+(?:\.\d+)?` at the start of `s` (which begins with a digit). */
  function DecimalAt(s: string): (d: string)
    requires s != [] && IsDigit(s[0])
    ensures d <= s && d != []
  {
    var whole := LeadingDigits(s);
    var rest := s[|whole|..];
    if |rest| >= 2 && rest[0] == '.' && IsDigit(rest[1]) then whole + "." + LeadingDigits(rest[1..])
    else whole
  }

  /** The group of `^(?:[^\d\s])*\s?(\d+(?:\.\d+)?)` matched against a subtitle, if it matches. */
  function SubtitleDecimal(s: string): (r: Option<string>)
    ensures r.Some? ==> exists k :: 0 <= k < |s| && r.value <= s[k..] && IsDigit(s[k])
  {
    var k := NonDigitRun(s);
    if k < |s| && IsDigit(s[k]) then Some(DecimalAt(s[k..]))
    else if k + 1 < |s| && IsSpace(s[k]) && IsDigit(s[k + 1]) then Some(DecimalAt(s[k + 1..]))
    else None
  }

  /** The matched group read as a number, in hundredths. */
  function SubtitleNumber(s: string): Option<int>
  {
    match SubtitleDecimal(s)
    case Some(d) => ParseNumber(d)
    case None => None
  }

  /**
   * The number of chapter `index` of the combined list: its name; else its
   * subtitle unless it is an "ex" chapter; else the next name minus 0.5;
   * else the previous name plus 0.5, or 0.5 at the start; else `carried`
   * (the previous chapter's number) plus 0.01.
   */
  function NumberAt(list: seq<TitleChapter>, index: nat, carried: int): int
    requires index < |list|
  {
    var c := list[index];
    match NameNumber(c.name)
    case Some(n) => n
    case None =>
      if !IsEx(c.name) && SubtitleNumber(c.subTitle).Some? then SubtitleNumber(c.subTitle).value
      else if index + 1 < |list| && NameNumber(list[index + 1].name).Some? then NameNumber(list[index + 1].name).value - 50
      else if index == 0 then 50
      else match NameNumber(list[index - 1].name)
        case Some(p) => p + 50
        case None => carried + 1
  }

  /** The subtitle stored for a chapter: "ex" chapters get an "ex " prefix. */
  function StoredTitle(c: TitleChapter): string
  {
    if IsEx(c.name) then "ex " + c.subTitle else c.subTitle
  }

  /** Entry `i` of the result is chapter `i` of the list, numbered from the previous result. */
  predicate Derived(list: seq<TitleChapter>, chapters: seq<Chapter>, i: nat)
    requires i < |list| && i < |chapters|
  {
    && chapters[i].id == list[i].chapterId
    && chapters[i].title == StoredTitle(list[i])
    && chapters[i].time == list[i].startTimeStamp
    && chapters[i].number == NumberAt(list, i, if i == 0 then 0 else chapters[i - 1].number)
  }

  /** `get_details`' chapter loop over `firstChapterList + lastChapterList`. */
  method GetDetails(first: seq<TitleChapter>, last: seq<TitleChapter>) returns (chapters: seq<Chapter>)
    ensures |chapters| == |first + last|
    ensures forall i :: 0 <= i < |chapters| ==> Derived(first + last, chapters, i)
  {
    var list := first + last;
    chapters := [];
    var number := 0;
    var index := 0;
    while index < |list|
      invariant index <= |list| && |chapters| == index
      invariant number == if index == 0 then 0 else chapters[index - 1].number
      invariant forall i :: 0 <= i < index ==> Derived(list, chapters, i)
    {
      var c := list[index];
      number := NumberAt(list, index, number);
      var next := chapters + [Chapter(c.chapterId, StoredTitle(c), number, c.startTimeStamp)];
      forall i | 0 <= i < index + 1 ensures Derived(list, next, i) {
        if i < index {
          assert next[i] == chapters[i] && Derived(list, chapters, i);
          if i > 0 { assert next[i - 1] == chapters[i - 1]; }
        }
      }
      chapters := next;
      index := index + 1;
    }
  }

  /** An "ex" chapter between chapters 2 and 3 is numbered 2.5. */
  lemma ExBetweenChapters(a: TitleChapter, b: TitleChapter, x: TitleChapter, d: TitleChapter, carried: int)
    requires a.name == "1" && b.name == "2" && x.name == "ex" && d.name == "3"
    ensures NumberAt([a, b, x, d], 2, carried) == 250
  {
    assert StripHashes("ex") == "ex";
    assert ParseNumber("ex") == None by {
      assert IndexOf("ex", '.') == None;
    }
    assert IsEx("ex") by {
      assert LowerString("ex") == "ex";
    }
    assert StripHashes("3") == "3";
  }

  /** Two trailing specials: the first takes the previous name plus 0.5, the second the carried number plus 0.01. */
  lemma TrailingSpecials(a: TitleChapter, x: TitleChapter, y: TitleChapter, carried: int)
    requires a.name == "5" && x.name == "ex" && y.name == "ex"
    ensures NumberAt([a, x, y], 1, carried) == 550
    ensures NumberAt([a, x, y], 2, 550) == 551
  {
    assert StripHashes("ex") == "ex";
    assert ParseNumber("ex") == None by {
      assert IndexOf("ex", '.') == None;
    }
    assert IsEx("ex") by {
      assert LowerString("ex") == "ex";
    }
    assert StripHashes("5") == "5";
  }

  /** A subtitle such as "Chapter 12" gives its number to a chapter without a numeric name. */
  lemma SubtitleAfterWord(word: string, n: nat, rest: string)
    requires forall i :: 0 <= i < |word| ==> !IsDigit(word[i]) && !IsSpace(word[i])
    requires rest == [] || (!IsDigit(rest[0]) && rest[0] != '.')
    ensures SubtitleNumber(word + " " + NatToString(n) + rest) == Some(n * 100)
  {
    var d := NatToString(n);
    var t := " " + (d + rest);
    Concat3(word, " ", d);
    Concat3(word, " " + d, rest);
    Concat3(" ", d, rest);
    NonDigitRunOf(word, t);
    assert (word + t)[|word|] == ' ' && (word + t)[|word| + 1] == d[0];
    assert (word + t)[|word| + 1..] == d + rest;
    LeadingDigitsOf(d, rest);
    assert (d + rest)[|d|..] == rest;
    assert DecimalAt(d + rest) == d;
  }

  lemma {:induction false} NonDigitRunOf(word: string, rest: string)
    requires forall i :: 0 <= i < |word| ==> !IsDigit(word[i]) && !IsSpace(word[i])
    requires rest != [] && IsSpace(rest[0])
    ensures NonDigitRun(word + rest) == |word|
  {
    if word != [] {
      assert (word + rest)[1..] == word[1..] + rest;
      NonDigitRunOf(word[1..], rest);
    } else {
      assert word + rest == rest;
    }
  }

  // ------------------------------------------------------------ get_pages

  /** An entry of the viewer's page list: only `mangaPage` entries are pages. */
  datatype ViewerEntry = MangaPage(imageUrl: string, encryptionKey: string) | OtherEntry

  datatype Page = Page(number: nat, imageUrl: string, encryptionKey: string)

  /** The `mangaPage` entries, in order. */
  function MangaPages(entries: seq<ViewerEntry>): (r: seq<ViewerEntry>)
    ensures |r| <= |entries|
    ensures forall k :: 0 <= k < |r| ==> r[k].MangaPage? && r[k] in entries
    ensures forall e :: e in entries && e.MangaPage? ==> e in r
  {
    if entries == [] then []
    else
      var init := MangaPages(entries[..|entries| - 1]);
      var last := entries[|entries| - 1];
      assert entries == entries[..|entries| - 1] + [last];
      if last.MangaPage? then init + [last] else init
  }

  /**
   * The filter keeps order and multiplicity: it distributes over
   * concatenation, and one entry is kept exactly when it is a `mangaPage`.
   */
  lemma {:induction false} MangaPagesAppend(a: seq<ViewerEntry>, b: seq<ViewerEntry>)
    ensures MangaPages(a + b) == MangaPages(a) + MangaPages(b)
    ensures |b| == 1 ==> MangaPages(b) == if b[0].MangaPage? then b else []
    decreases |b|
  {
    if b == [] {
      assert a + b == a;
    } else {
      var init := b[..|b| - 1];
      assert (a + b)[..|a + b| - 1] == a + init;
      MangaPagesAppend(a, init);
      if |b| == 1 {
        assert init == [];
      }
    }
  }

  /** `get_pages`: the manga pages numbered 1, 2, … in order. */
  method GetPages(entries: seq<ViewerEntry>) returns (pages: seq<Page>)
    ensures |pages| == |MangaPages(entries)|
    ensures forall k :: 0 <= k < |pages| ==>
      pages[k] == Page(k + 1, MangaPages(entries)[k].imageUrl, MangaPages(entries)[k].encryptionKey)
  {
    pages := [];
    var i := 0;
    while i < |entries|
      invariant i <= |entries|
      invariant |pages| == |MangaPages(entries[..i])|
      invariant forall k :: 0 <= k < |pages| ==>
        pages[k] == Page(k + 1, MangaPages(entries[..i])[k].imageUrl, MangaPages(entries[..i])[k].encryptionKey)
    {
      assert entries[..i + 1][..i] == entries[..i];
      var e := entries[i];
      if e.MangaPage? {
        pages := pages + [Page(|pages| + 1, e.imageUrl, e.encryptionKey)];
      }
      i := i + 1;
    }
    assert entries[..i] == entries;
  }

  // -------------------------------------------------------------- decrypt

  predicate IsHexDigit(c: char)
  {
    ('0' <= c <= '9') || ('a' <= c <= 'f') || ('A' <= c <= 'F')
  }

  function HexValue(c: char): (v: bv8)
    requires IsHexDigit(c)
  {
    if '0' <= c <= '9' then (c as int - '0' as int) as bv8
    else if 'a' <= c <= 'f' then (c as int - 'a' as int + 10) as bv8
    else (c as int - 'A' as int + 10) as bv8
  }

  /** The whitespace `bytes.fromhex` skips between pairs. */
  predicate IsAsciiSpace(c: char)
  {
    c == ' ' || ('\t' <= c <= '\r')
  }

  /** `bytearray.fromhex`: pairs of hex digits, whitespace allowed between pairs; None where it raises ValueError. */
  function FromHex(s: string): (r: Option<seq<bv8>>)
    ensures r.Some? ==> |r.value| <= |s| / 2
    decreases |s|
  {
    if s == [] then Some([])
    else if IsAsciiSpace(s[0]) then FromHex(s[1..])
    else if |s| >= 2 && IsHexDigit(s[0]) && IsHexDigit(s[1]) then
      match FromHex(s[2..])
      case Some(rest) => Some([HexValue(s[0]) * 16 + HexValue(s[1])] + rest)
      case None => None
    else None
  }

  /**
   * When `bytearray.fromhex` accepts a text: on success every character is
   * whitespace or a hex digit, and without whitespace there are exactly two
   * digits per byte; on failure some non-whitespace character does not
   * start a pair of hex digits.
   */
  lemma {:induction false} FromHexFacts(s: string)
    ensures FromHex(s).Some? ==> forall i :: 0 <= i < |s| ==> IsAsciiSpace(s[i]) || IsHexDigit(s[i])
    ensures FromHex(s).Some? && (forall i :: 0 <= i < |s| ==> !IsAsciiSpace(s[i])) ==> |s| == 2 * |FromHex(s).value|
    ensures FromHex(s).None? ==>
      exists i :: 0 <= i < |s| && !IsAsciiSpace(s[i]) && !(i + 1 < |s| && IsHexDigit(s[i]) && IsHexDigit(s[i + 1]))
    decreases |s|
  {
    if s == [] {
    } else if IsAsciiSpace(s[0]) {
      FromHexFacts(s[1..]);
      if FromHex(s).None? {
        var i :| 0 <= i < |s[1..]| && !IsAsciiSpace(s[1..][i])
          && !(i + 1 < |s[1..]| && IsHexDigit(s[1..][i]) && IsHexDigit(s[1..][i + 1]));
        assert !IsAsciiSpace(s[i + 1]) && !(i + 2 < |s| && IsHexDigit(s[i + 1]) && IsHexDigit(s[i + 2]));
      }
    } else if |s| >= 2 && IsHexDigit(s[0]) && IsHexDigit(s[1]) {
      FromHexFacts(s[2..]);
      if FromHex(s).None? {
        var i :| 0 <= i < |s[2..]| && !IsAsciiSpace(s[2..][i])
          && !(i + 1 < |s[2..]| && IsHexDigit(s[2..][i]) && IsHexDigit(s[2..][i + 1]));
        assert !IsAsciiSpace(s[i + 2]) && !(i + 3 < |s| && IsHexDigit(s[i + 2]) && IsHexDigit(s[i + 3]));
      } else {
        assert forall i :: 2 <= i < |s| ==> s[i] == s[2..][i - 2];
      }
    } else {
      assert !IsAsciiSpace(s[0]) && !(1 < |s| && IsHexDigit(s[0]) && IsHexDigit(s[1]));
    }
  }

  /** The lower-case hex digit of a nibble. */
  function HexDigitChar(v: bv8): (c: char)
    requires v < 16
    ensures IsHexDigit(c) && HexValue(c) == v
  {
    if v < 10 then ('0' as int + v as int) as char else ('a' as int + v as int - 10) as char
  }

  /** `bytes.hex(gap)`-style text: two hex digits per byte, each pair followed by the whitespace `gap`. */
  function ToHex(bytes: seq<bv8>, gap: string): string
  {
    if bytes == [] then ""
    else [HexDigitChar(bytes[0] / 16), HexDigitChar(bytes[0] % 16)] + gap + ToHex(bytes[1..], gap)
  }

  /** Whitespace before the text is skipped. */
  lemma {:induction false} FromHexSkipsSpace(gap: string, t: string)
    requires forall i :: 0 <= i < |gap| ==> IsAsciiSpace(gap[i])
    ensures FromHex(gap + t) == FromHex(t)
  {
    if gap != [] {
      assert (gap + t)[1..] == gap[1..] + t;
      FromHexSkipsSpace(gap[1..], t);
    } else {
      assert gap + t == t;
    }
  }

  /** Hex text of any bytes, with any whitespace after each pair, decodes back to those bytes. */
  lemma {:induction false} FromHexToHex(bytes: seq<bv8>, gap: string)
    requires forall i :: 0 <= i < |gap| ==> IsAsciiSpace(gap[i])
    ensures FromHex(ToHex(bytes, gap)) == Some(bytes)
  {
    if bytes != [] {
      var tail := ToHex(bytes[1..], gap);
      FromHexSkipsSpace(gap, tail);
      FromHexToHex(bytes[1..], gap);
      ToHexFirstByte(bytes, gap);
      assert [bytes[0]] + bytes[1..] == bytes;
    }
  }

  /** The first byte's pair decodes in front of whatever the rest decodes to. */
  lemma ToHexFirstByte(bytes: seq<bv8>, gap: string)
    requires bytes != []
    ensures var rest := FromHex(gap + ToHex(bytes[1..], gap));
      FromHex(ToHex(bytes, gap)) == if rest.Some? then Some([bytes[0]] + rest.value) else None
  {
    var b := bytes[0];
    ToHexUnfold(bytes, gap);
    FromHexPair(HexDigitChar(b / 16), HexDigitChar(b % 16), gap + ToHex(bytes[1..], gap));
    NibblesRejoin(b);
  }

  lemma ToHexUnfold(bytes: seq<bv8>, gap: string)
    requires bytes != []
    ensures ToHex(bytes, gap) == [HexDigitChar(bytes[0] / 16), HexDigitChar(bytes[0] % 16)] + (gap + ToHex(bytes[1..], gap))
  {
    Concat3([HexDigitChar(bytes[0] / 16), HexDigitChar(bytes[0] % 16)], gap, ToHex(bytes[1..], gap));
  }

  /** A leading hex pair decodes to one byte in front of the rest. */
  lemma FromHexPair(hi: char, lo: char, rest: string)
    requires IsHexDigit(hi) && IsHexDigit(lo)
    ensures FromHex([hi, lo] + rest) ==
      if FromHex(rest).Some? then Some([HexValue(hi) * 16 + HexValue(lo)] + FromHex(rest).value) else None
  {
    var s := [hi, lo] + rest;
    assert s[0] == hi && s[1] == lo && s[2..] == rest;
  }

  lemma NibblesRejoin(b: bv8)
    ensures HexValue(HexDigitChar(b / 16)) * 16 + HexValue(HexDigitChar(b % 16)) == b
  {
  }

  datatype DecryptResult =
    | Decrypted(bytes: seq<bv8>)
    | KeyError        // ValueError from bytearray.fromhex
    | ZeroDivision    // an empty key and a non-empty image

  /** Byte i XOR key byte i mod key length. */
  function CyclicXor(data: seq<bv8>, key: seq<bv8>): (r: seq<bv8>)
    requires key != []
    ensures |r| == |data| && forall i :: 0 <= i < |data| ==> r[i] == data[i] ^ key[i % |key|]
  {
    seq(|data|, i requires 0 <= i < |data| => data[i] ^ key[i % |key|])
  }

  /** `decrypt`, by its pure fallback. */
  function Decrypt(encryptionKey: string, image: seq<bv8>): (r: DecryptResult)
    ensures r.Decrypted? ==> |r.bytes| == |image|
    ensures r.Decrypted? && image != [] ==> FromHex(encryptionKey).Some? && FromHex(encryptionKey).value != []
    ensures r.KeyError? <==> FromHex(encryptionKey).None?
    ensures r.ZeroDivision? <==> FromHex(encryptionKey) == Some([]) && image != []
  {
    match FromHex(encryptionKey)
    case None => KeyError
    case Some(key) =>
      if key == [] then (if image == [] then Decrypted([]) else ZeroDivision)
      else Decrypted(CyclicXor(image, key))
  }

  /** Decrypting twice with the same key gives the image back. */
  lemma DecryptTwice(encryptionKey: string, image: seq<bv8>)
    requires Decrypt(encryptionKey, image).Decrypted?
    ensures Decrypt(encryptionKey, Decrypt(encryptionKey, image).bytes) == Decrypted(image)
  {
    var once := Decrypt(encryptionKey, image).bytes;
    var twice := Decrypt(encryptionKey, once);
    if image != [] {
      var key := FromHex(encryptionKey).value;
      forall i | 0 <= i < |image| ensures twice.bytes[i] == image[i] {
        XorTwice(image[i], key[i % |key|]);
      }
    }
  }

  lemma XorTwice(a: bv8, k: bv8)
    ensures (a ^ k) ^ k == a
  {
  }

  // -------------------------------------------------------- download_page

  /** `s` before the first `c`, or all of it. */
  function Before(s: string, c: char): (r: string)
    ensures r <= s && forall i :: 0 <= i < |r| ==> r[i] != c
  {
    match IndexOf(s, c)
    case None => s
    case Some(k) => s[..k]
  }

  /** Index of the first `"://"` in `s`. */
  function SchemeEnd(s: string): (r: Option<nat>)
    ensures r.Some? ==> r.value + 3 <= |s| && s[r.value..r.value + 3] == "://"
    decreases |s|
  {
    if |s| < 3 then None
    else if s[..3] == "://" then Some(0)
    else match SchemeEnd(s[1..])
      case None => None
      case Some(k) => Some(k + 1)
  }

  /** `urlparse(url).path`: without fragment, query, scheme, network location and the last segment's parameters. */
  function UrlPath(url: string): string
  {
    var s := Before(Before(url, '#'), '?');
    var path :=
      match SchemeEnd(s)
      case None => s
      case Some(k) =>
        var afterScheme := s[k + 3..];
        match IndexOf(afterScheme, '/')
        case None => ""
        case Some(j) => afterScheme[j..];
    match LastIndexOf(path, '/')
    case None => Before(path, ';')
    case Some(j) => path[..j + 1] + Before(path[j + 1..], ';')
  }

  /** `path` without trailing slashes. */
  function TrimSlashes(path: string): (r: string)
    ensures r <= path
    decreases |path|
  {
    if path != [] && path[|path| - 1] == '/' then TrimSlashes(path[..|path| - 1]) else path
  }

  /** `Path(path).suffix`: from the last dot of the final component, unless the dot is its first or last character. */
  function Suffix(path: string): (r: string)
    ensures r == [] || (r[0] == '.' && |r| >= 2)
  {
    var name := AfterLast(TrimSlashes(path), '/');
    match LastIndexOf(name, '.')
    case None => ""
    case Some(i) => if 0 < i < |name| - 1 then name[i..] else ""
  }

  /** The page's file name: its number padded to four digits, then the URL path's suffix. */
  function PageFileName(page: Page): string
  {
    Padded(page.number, 4) + Suffix(UrlPath(page.imageUrl))
  }

  /** The suffix of a final component with an inner dot, and none for a leading dot. */
  lemma SuffixExamples()
    ensures Suffix("/a/page.jpg") == ".jpg"
    ensures Suffix("/a/.hidden") == ""
  {
    assert TrimSlashes("/a/page.jpg") == "/a/page.jpg";
    LastIndexAt("/a/page.jpg", '/', 2);
    assert "/a/page.jpg"[3..] == "page.jpg";
    LastIndexAt("page.jpg", '.', 4);
    assert TrimSlashes("/a/.hidden") == "/a/.hidden";
    LastIndexAt("/a/.hidden", '/', 2);
    assert "/a/.hidden"[3..] == ".hidden";
    LastIndexAt(".hidden", '.', 0);
  }

  /** What the image request gave: an exception, or a response with its status and body. */
  datatype Response = RequestRaised | Response(ok: bool, content: seq<bv8>)

  datatype PageResult =
    | Returned(success: bool)
    | DecryptRaised     // ValueError or ZeroDivisionError, not caught here

  /** `download_page`: the decrypted body is written under the page's file name only for an ok response. */
  method DownloadPage(page: Page, response: Response, dir: map<string, seq<bv8>>)
    returns (result: PageResult, dir': map<string, seq<bv8>>)
    ensures result == Returned(true) <==>
      (response.Response? && response.ok && Decrypt(page.encryptionKey, response.content).Decrypted?)
    ensures result == Returned(true) ==>
      dir' == dir[PageFileName(page) := Decrypt(page.encryptionKey, response.content).bytes]
    ensures result != Returned(true) ==> dir' == dir
    ensures result.DecryptRaised? <==>
      (response.Response? && response.ok && !Decrypt(page.encryptionKey, response.content).Decrypted?)
  {
    var filename := PageFileName(page);
    dir' := dir;
    if response.RequestRaised? {
      return Returned(false), dir';
    }
    if !response.ok {
      return Returned(false), dir';
    }
    var decrypted := Decrypt(page.encryptionKey, response.content);
    if !decrypted.Decrypted? {
      return DecryptRaised, dir';
    }
    dir' := dir'[filename := decrypted.bytes];
    result := Returned(true);
  }
}
