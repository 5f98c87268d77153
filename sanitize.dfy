/**
 * `sanitize_path` from src/mangadlmao/utils.py: makes one path component
 * usable on Windows. The function is one chain of `lstrip`, `replace` and
 * `strip` calls; `SanitizePath` keeps that chain, and `Translate` is an
 * independent character-by-character reading of it that the lemmas use.
 */
module Sanitize {
  import opened Common

  /** `s.lstrip(". ")`. */
  function LStripDotSpace(s: string): (r: string)
    ensures r <= s || |r| < |s|
    decreases |s|
  {
    if s != [] && (s[0] == '.' || s[0] == ' ') then LStripDotSpace(s[1..]) else s
  }

  /** `s.lstrip()`. */
  function LStrip(s: string): string
  {
    if s != [] && IsSpace(s[0]) then LStrip(s[1..]) else s
  }

  /** `s.rstrip()`. */
  function RStrip(s: string): string
  {
    if s != [] && IsSpace(s[|s| - 1]) then RStrip(s[..|s| - 1]) else s
  }

  /** `s.strip()`. */
  function Strip(s: string): string
  {
    RStrip(LStrip(s))
  }

  /** The replacement chain of sanitize_path, in the order the source applies it. */
  function ReplaceChain(s: string): string
  {
    Replace(Replace(Replace(Replace(Replace(Replace(Replace(Replace(Replace(
      s, '/', "-"), '\\', "-"), ':', ""), '?', ""), '*', ""), '|', ""),
      '<', "_"), '>', "_"), '"', "'")
  }

  function SanitizePath(path: string): string
  {
    Strip(ReplaceChain(LStripDotSpace(path)))
  }

  /** The characters a Windows path component may not hold. */
  predicate IsReserved(c: char)
  {
    c == '/' || c == '\\' || c == ':' || c == '?' || c == '*' || c == '|'
    || c == '<' || c == '>' || c == '"'
  }

  /** What one character becomes under the replacement chain. */
  function Translate(c: char): (r: string)
    ensures |r| <= 1
    ensures forall i :: 0 <= i < |r| ==> !IsReserved(r[i])
    ensures !IsReserved(c) ==> r == [c]
  {
    if c == '/' || c == '\\' then "-"
    else if c == ':' || c == '?' || c == '*' || c == '|' then ""
    else if c == '<' || c == '>' then "_"
    else if c == '"' then "'"
    else [c]
  }

  function TranslateAll(s: string): string
  {
    if s == [] then [] else Translate(s[0]) + TranslateAll(s[1..])
  }

  lemma ChainOfOne(c: char)
    ensures ReplaceChain([c]) == Translate(c)
  {
    var x := [c];
    ReplaceShort(x, '/', "-");
    x := Replace(x, '/', "-");
    ReplaceShort(x, '\\', "-");
    x := Replace(x, '\\', "-");
    ReplaceShort(x, ':', "");
    x := Replace(x, ':', "");
    ReplaceShort(x, '?', "");
    x := Replace(x, '?', "");
    ReplaceShort(x, '*', "");
    x := Replace(x, '*', "");
    ReplaceShort(x, '|', "");
    x := Replace(x, '|', "");
    ReplaceShort(x, '<', "_");
    x := Replace(x, '<', "_");
    ReplaceShort(x, '>', "_");
    x := Replace(x, '>', "_");
    ReplaceShort(x, '"', "'");
  }

  /** The chained `replace` calls act character by character. */
  lemma {:induction false} ChainIsTranslation(s: string)
    ensures ReplaceChain(s) == TranslateAll(s)
  {
    if s != [] {
      var h, t := [s[0]], s[1..];
      assert s == h + t;
      ChainAppend(h, t);
      ChainOfOne(s[0]);
      ChainIsTranslation(t);
    }
  }

  lemma ChainAppend(a: string, b: string)
    ensures ReplaceChain(a + b) == ReplaceChain(a) + ReplaceChain(b)
  {
    var x, y := a, b;
    ReplaceAppend(x, y, '/', "-");
    x, y := Replace(x, '/', "-"), Replace(y, '/', "-");
    ReplaceAppend(x, y, '\\', "-");
    x, y := Replace(x, '\\', "-"), Replace(y, '\\', "-");
    ReplaceAppend(x, y, ':', "");
    x, y := Replace(x, ':', ""), Replace(y, ':', "");
    ReplaceAppend(x, y, '?', "");
    x, y := Replace(x, '?', ""), Replace(y, '?', "");
    ReplaceAppend(x, y, '*', "");
    x, y := Replace(x, '*', ""), Replace(y, '*', "");
    ReplaceAppend(x, y, '|', "");
    x, y := Replace(x, '|', ""), Replace(y, '|', "");
    ReplaceAppend(x, y, '<', "_");
    x, y := Replace(x, '<', "_"), Replace(y, '<', "_");
    ReplaceAppend(x, y, '>', "_");
    x, y := Replace(x, '>', "_"), Replace(y, '>', "_");
    ReplaceAppend(x, y, '"', "'");
  }

  lemma {:induction false} TranslateAllFacts(s: string)
    ensures |TranslateAll(s)| <= |s|
    ensures forall i :: 0 <= i < |TranslateAll(s)| ==> !IsReserved(TranslateAll(s)[i])
    ensures (forall i :: 0 <= i < |s| ==> !IsReserved(s[i])) ==> TranslateAll(s) == s
  {
    if s != [] {
      TranslateAllFacts(s[1..]);
    }
  }

  lemma {:induction false} LStripFacts(s: string)
    ensures |LStrip(s)| <= |s|
    ensures LStrip(s) != [] ==> !IsSpace(LStrip(s)[0])
    ensures exists k :: 0 <= k <= |s| && LStrip(s) == s[k..]
    ensures s == [] || !IsSpace(s[0]) ==> LStrip(s) == s
  {
    if s != [] && IsSpace(s[0]) {
      LStripFacts(s[1..]);
      var k :| 0 <= k <= |s[1..]| && LStrip(s[1..]) == s[1..][k..];
      assert LStrip(s) == s[k + 1..];
    } else {
      assert LStrip(s) == s[0..];
    }
  }

  lemma {:induction false} RStripFacts(s: string)
    ensures |RStrip(s)| <= |s|
    ensures RStrip(s) != [] ==> !IsSpace(RStrip(s)[|RStrip(s)| - 1])
    ensures RStrip(s) <= s
    ensures s == [] || !IsSpace(s[|s| - 1]) ==> RStrip(s) == s
  {
    if s != [] && IsSpace(s[|s| - 1]) {
      RStripFacts(s[..|s| - 1]);
    }
  }

  /** Stripping keeps a contiguous piece of its input and leaves no whitespace at either end. */
  lemma StripFacts(s: string)
    ensures |Strip(s)| <= |s|
    ensures Strip(s) != [] ==> !IsSpace(Strip(s)[0]) && !IsSpace(Strip(s)[|Strip(s)| - 1])
    ensures exists k :: 0 <= k <= |s| && Strip(s) <= s[k..]
    ensures s == [] || (!IsSpace(s[0]) && !IsSpace(s[|s| - 1])) ==> Strip(s) == s
  {
    LStripFacts(s);
    RStripFacts(LStrip(s));
    var k :| 0 <= k <= |s| && LStrip(s) == s[k..];
    if Strip(s) != [] {
      assert Strip(s)[0] == LStrip(s)[0];
    }
  }

  /** The sanitised name holds none of `/ \ : ? * | < > "`. */
  lemma NoReservedCharacters(path: string)
    ensures forall i :: 0 <= i < |SanitizePath(path)| ==> !IsReserved(SanitizePath(path)[i])
  {
    var t := ReplaceChain(LStripDotSpace(path));
    ChainIsTranslation(LStripDotSpace(path));
    TranslateAllFacts(LStripDotSpace(path));
    StripFacts(t);
    var k :| 0 <= k <= |t| && Strip(t) <= t[k..];
    forall i | 0 <= i < |Strip(t)| ensures !IsReserved(Strip(t)[i]) {
      assert Strip(t)[i] == t[k + i];
    }
  }

  /** The sanitised name has no whitespace at either end. */
  lemma NoSurroundingWhitespace(path: string)
    ensures var r := SanitizePath(path); r != [] ==> !IsSpace(r[0]) && !IsSpace(r[|r| - 1])
  {
    StripFacts(ReplaceChain(LStripDotSpace(path)));
  }

  /** Sanitising never lengthens a name. */
  lemma NeverLonger(path: string)
    ensures |SanitizePath(path)| <= |path|
  {
    ChainIsTranslation(LStripDotSpace(path));
    TranslateAllFacts(LStripDotSpace(path));
    StripFacts(ReplaceChain(LStripDotSpace(path)));
  }

  /**
   * A name without reserved characters, without a leading `.` and without
   * surrounding whitespace comes back unchanged.
   */
  lemma CleanNameUnchanged(path: string)
    requires forall i :: 0 <= i < |path| ==> !IsReserved(path[i])
    requires path != [] ==> path[0] != '.' && !IsSpace(path[0]) && !IsSpace(path[|path| - 1])
    ensures SanitizePath(path) == path
  {
    assert LStripDotSpace(path) == path;
    ChainIsTranslation(path);
    TranslateAllFacts(path);
    StripFacts(path);
  }

  /**
   * Leading dots and spaces go before the replacements run, so a name can
   * still start with a dot once a reserved character in front of it is deleted.
   */
  lemma LeadingDotCanSurvive()
    ensures SanitizePath(":.") == "."
  {
    assert LStripDotSpace(":.") == ":.";
    ChainIsTranslation(":.");
    assert TranslateAll(":.") == ".";
  }
}
