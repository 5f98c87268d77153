/**
 * The older serialiser of src/mangadl/cbz.py. It differs from the current
 * one in two ways: only None is left out (an empty string gives an empty
 * element), and the value is escaped as it is, with no `str()`, so a
 * non-string value raises AttributeError.
 */
module LegacyCbz {
  import opened Common
  import Cbz

  /** What one manifest entry adds to the document so far. */
  function LegacyStep(sofar: Cbz.InfoResult, entry: (string, Cbz.Value)): Cbz.InfoResult
  {
    match sofar
    case Xml(s) =>
      if entry.1.Null? then sofar
      else if entry.0 == [] then Cbz.IndexError
      else if entry.1.Int? then Cbz.AttributeError
      else Cbz.Xml(s + Cbz.Element(entry.0, entry.1.s))
    case err => err
  }

  /** The element lines for `entries`, in order, or the first exception raised. */
  function LegacyBody(entries: seq<(string, Cbz.Value)>): Cbz.InfoResult
  {
    if entries == [] then Cbz.Xml("")
    else LegacyStep(LegacyBody(entries[..|entries| - 1]), entries[|entries| - 1])
  }

  function LegacyComicInfo(entries: seq<(string, Cbz.Value)>): Cbz.InfoResult
  {
    match LegacyBody(entries)
    case Xml(s) => Cbz.Xml(Cbz.Header + s + Cbz.Footer)
    case err => err
  }

  /** How the loop's document grows with entry `i`. */
  lemma LegacyBodySnoc(entries: seq<(string, Cbz.Value)>, i: nat, s: string)
    requires i < |entries| && LegacyBody(entries[..i]).Xml? && s == Cbz.Header + LegacyBody(entries[..i]).text
    ensures var (key, value) := entries[i];
      && LegacyBody(entries[..i + 1]) == LegacyStep(LegacyBody(entries[..i]), entries[i])
      && (value.Null? ==> LegacyBody(entries[..i + 1]) == LegacyBody(entries[..i]))
      && (!value.Null? && key == [] ==> LegacyBody(entries[..i + 1]) == Cbz.IndexError)
      && (!value.Null? && key != [] && value.Int? ==> LegacyBody(entries[..i + 1]) == Cbz.AttributeError)
      && (value.Text? && key != [] ==>
            LegacyBody(entries[..i + 1]).Xml? && s + Cbz.Element(key, value.s) == Cbz.Header + LegacyBody(entries[..i + 1]).text)
  {
    assert entries[..i + 1][..i] == entries[..i];
    var (key, value) := entries[i];
    if value.Text? && key != [] {
      Concat3(Cbz.Header, LegacyBody(entries[..i]).text, Cbz.Element(key, value.s));
    }
  }

  lemma {:induction false} LegacyNoRecovery(entries: seq<(string, Cbz.Value)>, n: nat)
    requires n <= |entries| && !LegacyBody(entries[..n]).Xml?
    ensures LegacyBody(entries[..|entries|]) == LegacyBody(entries[..n])
    decreases |entries| - n
  {
    if n < |entries| {
      assert entries[..n + 1][..n] == entries[..n];
      LegacyNoRecovery(entries, n + 1);
    }
  }

  /** An exception at entry `i` is the result of the whole document. */
  lemma LegacyRaised(entries: seq<(string, Cbz.Value)>, i: nat, err: Cbz.InfoResult)
    requires i < |entries| && LegacyBody(entries[..i + 1]) == err && !err.Xml?
    ensures LegacyComicInfo(entries) == err
  {
    LegacyNoRecovery(entries, i + 1);
    assert entries[..|entries|] == entries;
  }

  /** The legacy `generate_comic_info` loop; its result is `LegacyComicInfo`. */
  method LegacyGenerateComicInfo(entries: seq<(string, Cbz.Value)>) returns (r: Cbz.InfoResult)
    ensures r == LegacyComicInfo(entries)
  {
    var s := Cbz.Header;
    var i := 0;
    while i < |entries|
      invariant 0 <= i <= |entries|
      invariant LegacyBody(entries[..i]).Xml? && s == Cbz.Header + LegacyBody(entries[..i]).text
    {
      var key, value := entries[i].0, entries[i].1;
      LegacyBodySnoc(entries, i, s);
      if !value.Null? {
        if key == [] || value.Int? {
          r := if key == [] then Cbz.IndexError else Cbz.AttributeError;
          LegacyRaised(entries, i, r);
          return;
        }
        s := s + Cbz.Element(key, value.s);
      }
      i := i + 1;
    }
    assert entries[..i] == entries;
    return Cbz.Xml(s + Cbz.Footer);
  }

  /** The legacy document has the same fixed first and last lines. */
  lemma LegacyDocumentFrame(entries: seq<(string, Cbz.Value)>)
    requires LegacyComicInfo(entries).Xml?
    ensures var t := LegacyComicInfo(entries).text;
      Cbz.Header <= t && |t| >= |Cbz.Header| + |Cbz.Footer| && t[|t| - |Cbz.Footer|..] == Cbz.Footer
  {
    var t := LegacyComicInfo(entries).text;
    assert t == Cbz.Header + LegacyBody(entries).text + Cbz.Footer;
  }

  /** An empty string still produces an (empty) element. */
  lemma EmptyStringGivesEmptyElement(entries: seq<(string, Cbz.Value)>, key: string)
    requires key != [] && LegacyBody(entries).Xml?
    ensures LegacyComicInfo(entries + [(key, Cbz.Text(""))])
         == Cbz.Xml(Cbz.Header + LegacyBody(entries).text
                    + ("\t<" + Cbz.Capitalize(key) + ">" + "" + "</" + Cbz.Capitalize(key) + ">\n") + Cbz.Footer)
  {
    var e := entries + [(key, Cbz.Text(""))];
    assert e[..|entries|] == entries;
    assert Cbz.Escape("") == "";
    var line := Cbz.Element(key, "");
    assert LegacyBody(e) == Cbz.Xml(LegacyBody(entries).text + line);
    Concat3(Cbz.Header, LegacyBody(entries).text, line);
  }

  /** A non-string value is not converted: escaping it raises. */
  lemma NumberRaises(entries: seq<(string, Cbz.Value)>, key: string, n: int)
    requires key != [] && LegacyBody(entries).Xml?
    ensures LegacyComicInfo(entries + [(key, Cbz.Int(n))]) == Cbz.AttributeError
  {
    assert (entries + [(key, Cbz.Int(n))])[..|entries|] == entries;
  }

  /** On string-or-None manifests without empty strings the two serialisers agree. */
  lemma {:induction false} AgreesWithCurrent(entries: seq<(string, Cbz.Value)>)
    requires forall i :: 0 <= i < |entries| ==> !entries[i].1.Int? && entries[i].1 != Cbz.Text("")
    ensures LegacyBody(entries) == Cbz.Body(entries)
  {
    if entries != [] {
      AgreesWithCurrent(entries[..|entries| - 1]);
    }
  }
}
