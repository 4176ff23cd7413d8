/**
 * The selector-to-XPath translation of JobsController.Create
 * (src/Controllers/JobsController.cs, the if/else chain before SelectNodes)
 * and the meaning of the class query it produces under the XPath 1.0 string
 * functions concat, contains and normalize-space (section 4.2 of XPath 1.0).
 */
module Selectors {

  /** The three shapes the controller distinguishes. A leading "." is checked before a leading "#". */
  datatype Selector = ClassSelector(className: string) | IdSelector(idName: string) | ElementSelector(path: string)

  function Classify(css: string): (s: Selector)
    ensures s.ClassSelector? <==> |css| > 0 && css[0] == '.'
    ensures s.IdSelector? <==> |css| > 0 && css[0] == '#'
    ensures s.ElementSelector? <==> css == [] || (css[0] != '.' && css[0] != '#')
    ensures s.ElementSelector? ==> s.path == css
  {
    if |css| > 0 && css[0] == '.' then ClassSelector(css[1..])
    else if |css| > 0 && css[0] == '#' then IdSelector(css[1..])
    else ElementSelector(css)
  }

  /** The selector text a classification came from. */
  function Unclassify(s: Selector): string {
    match s
    case ClassSelector(c) => "." + c
    case IdSelector(i) => "#" + i
    case ElementSelector(p) => p
  }

  /** No information is lost by the classification: the selector can be recovered. */
  lemma ClassifyRoundTrip(css: string)
    ensures Unclassify(Classify(css)) == css
  {
    if |css| > 0 && (css[0] == '.' || css[0] == '#') {
      assert css == [css[0]] + css[1..];
    }
  }

  const ClassQueryPrefix: string := "//*[contains(concat(' ', normalize-space(@class), ' '), ' "
  const ClassQuerySuffix: string := " ')]"

  function Render(s: Selector): string {
    match s
    case ClassSelector(c) => ClassQueryPrefix + c + ClassQuerySuffix
    case IdSelector(i) => "//*[@id='" + i + "']"
    case ElementSelector(p) => "//" + p
  }

  /** The XPath expression handed to SelectNodes for a selector. */
  function ToXPath(css: string): (x: string)
    ensures |css| > 0 && css[0] == '.' ==> x == ClassQueryPrefix + css[1..] + ClassQuerySuffix
    ensures |css| > 0 && css[0] == '#' ==> x == "//*[@id='" + css[1..] + "']"
    ensures !(|css| > 0 && (css[0] == '.' || css[0] == '#')) ==> x == "//" + css
  {
    Render(Classify(css))
  }

  /**
   * The element fallback passes any text through, so the translation is not
   * injective: the selector "*[@id='x']" and the selector "#x" yield the same query.
   */
  lemma ElementFallbackOverlapsIdQuery()
    ensures ToXPath("*[@id='x']") == ToXPath("#x")
  {
    assert "#x"[1..] == "x";
  }

  // ---------------------------------------------------------------------------
  // XPath 1.0 string functions (section 4.2)
  // ---------------------------------------------------------------------------

  /** The S production of XML: space, tab, carriage return, line feed. */
  predicate IsXmlSpace(c: char) {
    c == ' ' || c == '\t' || c == '\r' || c == '\n'
  }

  predicate NoSpace(s: string) {
    forall i :: 0 <= i < |s| ==> !IsXmlSpace(s[i])
  }

  predicate IsPrefix(t: string, s: string) {
    |t| <= |s| && s[..|t|] == t
  }

  /** contains(s, t): t occurs in s. */
  predicate Contains(s: string, t: string) {
    IsPrefix(t, s) || (s != [] && Contains(s[1..], t))
  }

  /** The leading run of non-space characters. */
  function TakeWord(s: string): (w: string)
    ensures |w| <= |s| && w == s[..|w|] && NoSpace(w)
    ensures s != [] && !IsXmlSpace(s[0]) ==> |w| > 0
  {
    if s == [] || IsXmlSpace(s[0]) then []
    else
      var w := TakeWord(s[1..]);
      assert s[..|w| + 1] == [s[0]] + w;
      [s[0]] + w
  }

  /** The maximal runs of non-space characters, in order. */
  function Words(s: string): (ws: seq<string>)
    ensures forall i :: 0 <= i < |ws| ==> ws[i] != [] && NoSpace(ws[i])
    decreases |s|
  {
    if s == [] then []
    else if IsXmlSpace(s[0]) then Words(s[1..])
    else
      var w := TakeWord(s);
      [w] + Words(s[|w|..])
  }

  /** The words separated by single spaces. */
  function Join(ws: seq<string>): string {
    if ws == [] then [] else if |ws| == 1 then ws[0] else ws[0] + " " + Join(ws[1..])
  }

  /** normalize-space(s): leading and trailing white space stripped, inner runs collapsed to one space. */
  function NormalizeSpace(s: string): string {
    Join(Words(s))
  }

  /**
   * Whether an element whose class attribute is `classAttr` satisfies the
   * predicate of ToXPath("." + className).
   */
  predicate ClassQueryMatches(classAttr: string, className: string) {
    Contains(" " + NormalizeSpace(classAttr) + " ", " " + className + " ")
  }

  // ---------------------------------------------------------------------------
  // The class query selects exactly the elements carrying the class token
  // ---------------------------------------------------------------------------

  /** Each word preceded by one space. */
  function Spaced(ws: seq<string>): string {
    if ws == [] then [] else " " + ws[0] + Spaced(ws[1..])
  }

  lemma {:induction false} JoinSpaced(ws: seq<string>)
    requires ws != []
    ensures " " + Join(ws) == Spaced(ws)
  {
    if |ws| > 1 {
      JoinSpaced(ws[1..]);
      assert " " + Join(ws) == " " + ws[0] + (" " + Join(ws[1..]));
    } else {
      assert Spaced(ws[1..]) == [];
    }
  }

  lemma {:induction false} TooLongNotContained(s: string, t: string)
    requires |t| > |s|
    ensures !Contains(s, t)
  {
    if s != [] {
      TooLongNotContained(s[1..], t);
    }
  }

  /** A space-led pattern cannot start inside a run of non-space characters. */
  lemma {:induction false} SkipWord(x: string, r: string, t: string)
    requires NoSpace(x) && |t| > 0 && t[0] == ' '
    ensures Contains(x + r, t) <==> Contains(r, t)
  {
    if x == [] {
      assert x + r == r;
    } else {
      assert (x + r)[0] == x[0];
      assert !IsPrefix(t, x + r);
      assert (x + r)[1..] == x[1..] + r;
      assert NoSpace(x[1..]) by {
        forall i | 0 <= i < |x[1..]| ensures !IsXmlSpace(x[1..][i]) {
          assert x[1..][i] == x[i + 1];
        }
      }
      SkipWord(x[1..], r, t);
    }
  }

  /** " name " starts " w" followed by a space exactly when name is w. */
  lemma PrefixIsWord(name: string, w: string, r: string)
    requires name != [] && NoSpace(name) && w != [] && NoSpace(w)
    requires r != [] && r[0] == ' '
    ensures IsPrefix(" " + name + " ", " " + w + r) <==> name == w
  {
    var t := " " + name + " ";
    var p := " " + w + r;
    if name == w {
      assert p[..|t|] == " " + w + [r[0]];
    }
    if IsPrefix(t, p) {
      // the first space after position 0 closes the word in both strings
      assert forall i :: 1 <= i <= |w| ==> p[i] == w[i - 1];
      assert forall i :: 1 <= i <= |name| ==> t[i] == name[i - 1];
      assert p[|name| + 1] == t[|name| + 1] == ' ';
      assert |name| >= |w|;
      assert t[|w| + 1] == p[|w| + 1] == r[0];
      assert |name| == |w|;
      assert p[1..|w| + 1] == w;
      assert t[1..|name| + 1] == name;
    }
  }

  lemma {:induction false} SpacedContains(ws: seq<string>, name: string)
    requires forall i :: 0 <= i < |ws| ==> ws[i] != [] && NoSpace(ws[i])
    requires name != [] && NoSpace(name)
    ensures Contains(Spaced(ws) + " ", " " + name + " ") <==> name in ws
  {
    var t := " " + name + " ";
    if ws == [] {
      TooLongNotContained(" ", t);
    } else {
      var r := Spaced(ws[1..]) + " ";
      assert Spaced(ws) + " " == " " + ws[0] + r;
      assert (" " + ws[0] + r)[1..] == ws[0] + r;
      SkipWord(ws[0], r, t);
      assert r[|r| - 1] == ' ';
      if Spaced(ws[1..]) != [] {
        assert r[0] == ' ';
      }
      assert r != [] && r[0] == ' ';
      PrefixIsWord(name, ws[0], r);
      SpacedContains(ws[1..], name);
      assert name in ws <==> name == ws[0] || name in ws[1..] by {
        assert ws == [ws[0]] + ws[1..];
      }
    }
  }

  /**
   * For a class name without white space, the class query produced for "." +
   * className matches an element exactly when className is one of the
   * space-separated tokens of its class attribute; a longer class that merely
   * begins or ends with className does not match.
   */
  lemma ClassQuerySelectsToken(classAttr: string, className: string)
    requires className != [] && NoSpace(className)
    ensures ClassQueryMatches(classAttr, className) <==> className in Words(classAttr)
  {
    var ws := Words(classAttr);
    var t := " " + className + " ";
    if ws == [] {
      assert " " + NormalizeSpace(classAttr) + " " == "  ";
      TooLongNotContained("  ", t);
    } else {
      JoinSpaced(ws);
      assert " " + NormalizeSpace(classAttr) + " " == Spaced(ws) + " ";
      SpacedContains(ws, className);
    }
  }

  /** A run of non-space characters followed by a space or nothing is the leading word. */
  lemma {:induction false} TakeWordOf(w: string, r: string)
    requires NoSpace(w) && (r == [] || IsXmlSpace(r[0]))
    ensures TakeWord(w + r) == w
  {
    if w == [] {
      assert w + r == r;
    } else {
      assert (w + r)[0] == w[0];
      assert (w + r)[1..] == w[1..] + r;
      assert NoSpace(w[1..]) by {
        forall i | 0 <= i < |w[1..]| ensures !IsXmlSpace(w[1..][i]) {
          assert w[1..][i] == w[i + 1];
        }
      }
      TakeWordOf(w[1..], r);
      assert w == [w[0]] + w[1..];
    }
  }

  lemma WordsCons(w: string, rest: string)
    requires w != [] && NoSpace(w)
    ensures Words(w + " " + rest) == [w] + Words(rest)
    ensures Words(w) == [w]
  {
    var s := w + " " + rest;
    TakeWordOf(w, " " + rest);
    assert s == w + (" " + rest);
    assert s[|w|..] == " " + rest;
    assert (" " + rest)[1..] == rest;
    TakeWordOf(w, []);
    assert w + [] == w;
    assert w[|w|..] == [];
  }

  /** The selector ".item" matches class="item active". */
  lemma ClassQueryMatchesToken()
    ensures ClassQueryMatches("item active", "item")
  {
    assert "item" + " " + "active" == "item active";
    WordsCons("item", "active");
    assert Words("item active")[0] == "item";
    ClassQuerySelectsToken("item active", "item");
  }

  /** The selector ".item" does not match class="items". */
  lemma ClassQueryRejectsLongerClass()
    ensures !ClassQueryMatches("items", "item")
  {
    WordsCons("items", "");
    ClassQuerySelectsToken("items", "item");
  }
}
