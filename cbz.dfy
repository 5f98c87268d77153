/**
 * The archive writer of src/mangadlmao/cbz.py: `generate_comic_info`, which
 * serialises an ordered key/value manifest as ComicInfo.xml, and
 * `create_cbz`, which archives a staging directory and moves the archive to
 * its destination.
 */
module Cbz {
  import opened Common

  /** A manifest value: Python None, a string, or an int. */
  datatype Value = Null | Text(s: string) | Int(n: int)

  /** A finished archive in a series directory: its modification time and the ComicInfo entries it was written with. */
  datatype CbzFile = CbzFile(mtime: int, comicInfo: seq<(string, Value)>)

  /** The serialised document, or the exception the serialiser raises. */
  datatype InfoResult = Xml(text: string) | IndexError | AttributeError

  const Header: string := "<?xml version=\"1.0\" encoding=\"UTF-8\"?>\n<ComicInfo>\n"
  const Footer: string := "</ComicInfo>\n"

  /** `xml.sax.saxutils.escape`: `&`, then `>`, then `<` are replaced. */
  function Escape(s: string): string
  {
    Replace(Replace(Replace(s, '&', "&amp;"), '>', "&gt;"), '<', "&lt;")
  }

  /** What one character becomes when escaped. */
  function EscapeChar(c: char): string
  {
    if c == '&' then "&amp;" else if c == '>' then "&gt;" else if c == '<' then "&lt;" else [c]
  }

  function EscapeChars(s: string): string
  {
    if s == [] then [] else EscapeChar(s[0]) + EscapeChars(s[1..])
  }

  /** Reading the three entities back, as an XML parser does for element text. */
  function Unescape(t: string): string
    decreases |t|
  {
    if t == [] then []
    else if "&amp;" <= t then "&" + Unescape(t[5..])
    else if "&lt;" <= t then "<" + Unescape(t[4..])
    else if "&gt;" <= t then ">" + Unescape(t[4..])
    else [t[0]] + Unescape(t[1..])
  }

  lemma EscapeOne(c: char)
    ensures Escape([c]) == EscapeChar(c)
  {
    ReplaceShort([c], '&', "&amp;");
    if c == '&' {
      assert Replace("&amp;", '>', "&gt;") == "&amp;";
      assert Replace("&amp;", '<', "&lt;") == "&amp;";
    } else {
      ReplaceShort([c], '>', "&gt;");
      if c == '>' {
        assert Replace("&gt;", '<', "&lt;") == "&gt;";
      } else {
        ReplaceShort([c], '<', "&lt;");
      }
    }
  }

  /** The three chained replacements act character by character. */
  lemma {:induction false} EscapeIsCharwise(s: string)
    ensures Escape(s) == EscapeChars(s)
  {
    if s != [] {
      var h, t := [s[0]], s[1..];
      assert s == h + t;
      ReplaceAppend(h, t, '&', "&amp;");
      var h1, t1 := Replace(h, '&', "&amp;"), Replace(t, '&', "&amp;");
      ReplaceAppend(h1, t1, '>', "&gt;");
      var h2, t2 := Replace(h1, '>', "&gt;"), Replace(t1, '>', "&gt;");
      ReplaceAppend(h2, t2, '<', "&lt;");
      EscapeOne(s[0]);
      EscapeIsCharwise(t);
    }
  }

  lemma {:induction false} UnescapeEscapeChars(s: string)
    ensures Unescape(EscapeChars(s)) == s
  {
    if s != [] {
      var rest := EscapeChars(s[1..]);
      var t := EscapeChar(s[0]) + rest;
      assert EscapeChars(s) == t;
      UnescapeEscapeChars(s[1..]);
      if s[0] == '&' {
        assert "&amp;" <= t && t[5..] == rest;
      } else if s[0] == '<' {
        assert t == "&lt;" + rest;
        assert t[1] == 'l';
        assert "&lt;" <= t && t[4..] == rest;
      } else if s[0] == '>' {
        assert t == "&gt;" + rest;
        assert t[1] == 'g';
        assert "&gt;" <= t && t[4..] == rest;
      } else {
        assert t[0] == s[0] && t[1..] == rest;
      }
      assert s == [s[0]] + s[1..];
    }
  }

  /** Escaping is undone by reading the entities back. */
  lemma UnescapeEscape(s: string)
    ensures Unescape(Escape(s)) == s
  {
    EscapeIsCharwise(s);
    UnescapeEscapeChars(s);
  }

  lemma {:induction false} EscapeCharsNoAngles(s: string)
    ensures forall i :: 0 <= i < |EscapeChars(s)| ==> EscapeChars(s)[i] != '<' && EscapeChars(s)[i] != '>'
  {
    if s != [] {
      EscapeCharsNoAngles(s[1..]);
      var e, rest := EscapeChar(s[0]), EscapeChars(s[1..]);
      assert EscapeChars(s) == e + rest;
      forall i | 0 <= i < |e + rest| ensures (e + rest)[i] != '<' && (e + rest)[i] != '>' {
        if i >= |e| { assert (e + rest)[i] == rest[i - |e|]; }
      }
    }
  }

  /** Escaped text holds no raw `<` or `>`. */
  lemma EscapedHasNoAngles(s: string)
    ensures forall i :: 0 <= i < |Escape(s)| ==> Escape(s)[i] != '<' && Escape(s)[i] != '>'
  {
    EscapeIsCharwise(s);
    EscapeCharsNoAngles(s);
  }

  /** `key[0].upper() + key[1:]`: the first character upper-cased, the rest unchanged. */
  function Capitalize(key: string): (r: string)
    requires key != []
    ensures |r| == |key| && r[0] == Upper(key[0]) && r[1..] == key[1..]
  {
    [Upper(key[0])] + key[1..]
  }

  /** `str(value)`. */
  function Str(v: Value): string
    requires !v.Null?
  {
    match v
    case Text(s) => s
    case Int(n) => IntToString(n)
  }

  /** Only None and the empty string are left out of the document. */
  predicate Kept(v: Value)
  {
    v != Null && v != Text("")
  }

  /** One element line of the document. */
  function Element(key: string, text: string): string
    requires key != []
  {
    "\t<" + Capitalize(key) + ">" + Escape(text) + "</" + Capitalize(key) + ">\n"
  }

  /** What one manifest entry adds to the document so far; an empty key of a kept entry raises IndexError. */
  function Step(sofar: InfoResult, entry: (string, Value)): InfoResult
  {
    match sofar
    case Xml(s) =>
      if !Kept(entry.1) then sofar
      else if entry.0 == [] then IndexError
      else Xml(s + Element(entry.0, Str(entry.1)))
    case err => err
  }

  /** The element lines for `entries`, in order, or the first exception raised. */
  function Body(entries: seq<(string, Value)>): InfoResult
  {
    if entries == [] then Xml("") else Step(Body(entries[..|entries| - 1]), entries[|entries| - 1])
  }

  /** The document `generate_comic_info` returns for `entries`. */
  function ComicInfo(entries: seq<(string, Value)>): InfoResult
  {
    match Body(entries)
    case Xml(s) => Xml(Header + s + Footer)
    case err => err
  }

  /**
   * `generate_comic_info`: accumulates the document line by line. Its result
   * is the specification `ComicInfo`, whose properties the lemmas below prove.
   */
  method GenerateComicInfo(entries: seq<(string, Value)>) returns (r: InfoResult)
    ensures r == ComicInfo(entries)
  {
    var s := Header;
    var i := 0;
    while i < |entries|
      invariant 0 <= i <= |entries|
      invariant Body(entries[..i]).Xml? && s == Header + Body(entries[..i]).text
    {
      var (key, value) := entries[i];
      BodySnoc(entries, i, s);
      if Kept(value) {
        if key == [] {
          Raised(entries, i);
          return IndexError;
        }
        s := s + Element(key, Str(value));
      }
      i := i + 1;
    }
    assert entries[..i] == entries;
    s := s + Footer;
    return Xml(s);
  }

  /** How the loop's document grows with entry `i`. */
  lemma BodySnoc(entries: seq<(string, Value)>, i: nat, s: string)
    requires i < |entries| && Body(entries[..i]).Xml? && s == Header + Body(entries[..i]).text
    ensures var (key, value) := entries[i];
      && Body(entries[..i + 1]) == Step(Body(entries[..i]), entries[i])
      && (!Kept(value) ==> Body(entries[..i + 1]) == Body(entries[..i]))
      && (Kept(value) && key == [] ==> !Body(entries[..i + 1]).Xml?)
      && (Kept(value) && key != [] ==> Body(entries[..i + 1]).Xml? && s + Element(key, Str(value)) == Header + Body(entries[..i + 1]).text)
  {
    assert entries[..i + 1][..i] == entries[..i];
    var (key, value) := entries[i];
    if Kept(value) && key != [] {
      var line := Element(key, Str(value));
      Concat3(Header, Body(entries[..i]).text, line);
    }
  }

  /** An exception at entry `i` is the result of the whole document. */
  lemma Raised(entries: seq<(string, Value)>, i: nat)
    requires i < |entries| && !Body(entries[..i + 1]).Xml?
    ensures ComicInfo(entries) == Body(entries[..i + 1])
  {
    NoRecovery(entries, i + 1);
    assert entries[..|entries|] == entries;
  }

  /** Once a prefix of the manifest raises, the whole manifest raises the same exception. */
  lemma {:induction false} NoRecovery(entries: seq<(string, Value)>, n: nat)
    requires n <= |entries| && !Body(entries[..n]).Xml?
    ensures Body(entries[..|entries|]) == Body(entries[..n])
    decreases |entries| - n
  {
    if n < |entries| {
      assert entries[..n + 1][..n] == entries[..n];
      NoRecovery(entries, n + 1);
    }
  }

  /** The document starts with the XML declaration and `<ComicInfo>`, and ends with `</ComicInfo>`. */
  lemma DocumentFrame(entries: seq<(string, Value)>)
    requires ComicInfo(entries).Xml?
    ensures var t := ComicInfo(entries).text;
      Header <= t && |t| >= |Header| + |Footer| && t[|t| - |Footer|..] == Footer
  {
    var t := ComicInfo(entries).text;
    assert t == Header + Body(entries).text + Footer;
  }

  /** The document of a concatenation is the two bodies in insertion order. */
  lemma {:induction false} BodyAppend(a: seq<(string, Value)>, b: seq<(string, Value)>)
    requires Body(a).Xml? && Body(b).Xml?
    ensures Body(a + b) == Xml(Body(a).text + Body(b).text)
  {
    if b == [] {
      assert a + b == a;
    } else {
      var b', e := b[..|b| - 1], b[|b| - 1];
      assert (a + b)[..|a + b| - 1] == a + b';
      assert (a + b)[|a + b| - 1] == e;
      BodyAppend(a, b');
      StepAfterPrefix(Body(a).text, Body(b').text, e);
    }
  }

  /** A step on a longer document adds the same lines. */
  lemma StepAfterPrefix(p: string, s: string, e: (string, Value))
    requires Step(Xml(s), e).Xml?
    ensures Step(Xml(p + s), e) == Xml(p + Step(Xml(s), e).text)
  {
  }

  /** None and "" add nothing to the document. */
  lemma EmptyValuesDropped(entries: seq<(string, Value)>, key: string, v: Value)
    requires v == Null || v == Text("")
    ensures ComicInfo(entries + [(key, v)]) == ComicInfo(entries)
  {
    assert (entries + [(key, v)])[..|entries|] == entries;
  }

  /** A value of 0 is kept: it is neither None nor "". */
  lemma ZeroIsKept(entries: seq<(string, Value)>, key: string)
    requires key != [] && Body(entries).Xml?
    ensures ComicInfo(entries + [(key, Int(0))])
         == Xml(Header + Body(entries).text + ("\t<" + Capitalize(key) + ">" + "0" + "</" + Capitalize(key) + ">\n") + Footer)
  {
    var e := entries + [(key, Int(0))];
    assert e[..|entries|] == entries;
    assert Str(Int(0)) == "0";
    assert Escape("0") == "0" by {
      EscapeIsCharwise("0");
    }
    var line := Element(key, "0");
    assert Body(e) == Xml(Body(entries).text + line);
    Concat3(Header, Body(entries).text, line);
  }

  /** Each kept entry's element text reads back as `str(value)`. */
  lemma ElementReadsBack(key: string, v: Value)
    requires key != [] && Kept(v)
    ensures var line := Element(key, Str(v));
      var open := "\t<" + Capitalize(key) + ">";
      var close := "</" + Capitalize(key) + ">\n";
      && open <= line
      && line[|line| - |close|..] == close
      && Unescape(line[|open|..|line| - |close|]) == Str(v)
  {
    var open := "\t<" + Capitalize(key) + ">";
    var close := "</" + Capitalize(key) + ">\n";
    var line := Element(key, Str(v));
    assert line == open + Escape(Str(v)) + close;
    assert line[|open|..|line| - |close|] == Escape(Str(v));
    UnescapeEscape(Str(v));
  }

  /** How the temporary archive's rename onto the destination turns out. */
  datatype RenameResult = Renamed | RenameError(errno: int)

  const EXDEV: int := 18

  /** The archive: entry name to contents (file bytes are modelled as text). */
  type Archive = map<string, string>

  /** What `create_cbz` leaves behind. */
  datatype CbzResult = CbzResult(
    staging: map<string, string>,   // the staging directory's other files
    leftover: Option<Archive>,      // temp.cbz, if it was not moved away
    dest: map<string, Archive>,     // the destination directory's archives
    raised: bool)

  /**
   * `create_cbz`: writes ComicInfo.xml into the staging directory, archives
   * every file listed there (the listing is taken before temp.cbz exists),
   * then replaces `destFile` with the archive; a cross-device rename falls
   * back to a move, any other rename error is raised and leaves temp.cbz.
   */
  method CreateCbz(staging: map<string, string>, destFile: string, info: seq<(string, Value)>,
                   dest: map<string, Archive>, rename: RenameResult)
    returns (r: CbzResult)
    ensures r.raised <==> !ComicInfo(info).Xml? || (rename.RenameError? && rename.errno != EXDEV)
    ensures !ComicInfo(info).Xml? ==>
      r == CbzResult(staging["ComicInfo.xml" := ""], None, dest, true)
    ensures ComicInfo(info).Xml? ==>
      var archive := staging["ComicInfo.xml" := ComicInfo(info).text];
      && r.staging == archive - {"temp.cbz"}
      && (r.raised ==> r.leftover == Some(archive) && r.dest == dest)
      && (!r.raised ==> r.leftover == None && r.dest == dest[destFile := archive])
  {
    var doc := GenerateComicInfo(info);
    if !doc.Xml? {
      return CbzResult(staging["ComicInfo.xml" := ""], None, dest, true);
    }
    var files := staging["ComicInfo.xml" := doc.text];
    var archive: Archive := map name | name in files :: files[name];
    assert archive == files;
    var rest := files - {"temp.cbz"};
    match rename
    case Renamed =>
      r := CbzResult(rest, None, dest[destFile := archive], false);
    case RenameError(errno) =>
      if errno == EXDEV {
        r := CbzResult(rest, None, dest[destFile := archive], false);
      } else {
        r := CbzResult(rest, Some(archive), dest, true);
      }
  }

  /** The archive holds exactly the staged files plus ComicInfo.xml, under their own names. */
  lemma ArchiveIsStagingPlusInfo(staging: map<string, string>, info: seq<(string, Value)>)
    requires ComicInfo(info).Xml?
    ensures var archive := staging["ComicInfo.xml" := ComicInfo(info).text];
      && archive.Keys == staging.Keys + {"ComicInfo.xml"}
      && (forall n :: n in staging && n != "ComicInfo.xml" ==> archive[n] == staging[n])
      && (("temp.cbz" in archive) <==> ("temp.cbz" in staging))
  {
  }
}
