/**
 * The text rules of the static-page generator (scripts/generate-seo-pages.mjs):
 * `slugify`, `escapeHtml`, the sitemap document and the placeholder
 * replacement done by `injectSeoPages`.
 */
module SeoText {
  import opened Wrappers
  import opened JsText

  // ---------------------------------------------------------------------
  // slugify

  /** The characters `[a-z0-9]`. */
  predicate IsSlugChar(c: char) {
    'a' <= c <= 'z' || '0' <= c <= '9'
  }

  predicate SlugCharset(s: string) {
    forall i :: 0 <= i < |s| ==> IsSlugChar(s[i]) || s[i] == '-'
  }

  predicate NoDoubleHyphen(s: string) {
    forall i :: 0 <= i < |s| - 1 ==> !(s[i] == '-' && s[i + 1] == '-')
  }

  /** A slug: `[a-z0-9-]` only, no `--`, and no `-` at either end. */
  predicate IsSlug(s: string) {
    SlugCharset(s) && NoDoubleHyphen(s) && (s == [] || (s[0] != '-' && s[|s| - 1] != '-'))
  }

  /** Drops the leading characters outside `[a-z0-9]`. */
  function SkipNonSlug(s: string): (r: string)
    ensures |r| <= |s|
    ensures r == [] || IsSlugChar(r[0])
  {
    if s != [] && !IsSlugChar(s[0]) then SkipNonSlug(s[1..]) else s
  }

  /** `s.replace(/[^a-z0-9]+/g, "-")`: every maximal run of other characters becomes one `-`. */
  function Hyphenate(s: string): (r: string)
    ensures SlugCharset(r) && NoDoubleHyphen(r)
    ensures r == [] <==> s == []
    ensures r != [] ==> (r[0] == '-' <==> !IsSlugChar(s[0]))
    decreases |s|
  {
    if s == [] then []
    else if IsSlugChar(s[0]) then [s[0]] + Hyphenate(s[1..])
    else "-" + Hyphenate(SkipNonSlug(s[1..]))
  }

  function DropLeadingHyphens(s: string): (r: string)
    ensures |r| <= |s| && r == s[|s| - |r|..]
    ensures forall k :: 0 <= k < |s| - |r| ==> s[k] == '-'
    ensures r == [] || r[0] != '-'
  {
    if s != [] && s[0] == '-' then DropLeadingHyphens(s[1..]) else s
  }

  function DropTrailingHyphens(s: string): (r: string)
    ensures |r| <= |s| && r == s[..|r|]
    ensures forall k :: |r| <= k < |s| ==> s[k] == '-'
    ensures r == [] || r[|r| - 1] != '-'
  {
    if s != [] && s[|s| - 1] == '-' then DropTrailingHyphens(s[..|s| - 1]) else s
  }

  /**
   * `s.replace(/^-+|-+$/g, "")`: without the `m` flag `^` and `$` are the
   * ends of the input, so the leading run of `-` and the trailing one go.
   */
  function StripHyphens(s: string): (r: string)
    ensures r == [] || (r[0] != '-' && r[|r| - 1] != '-')
  {
    DropTrailingHyphens(DropLeadingHyphens(s))
  }

  /** Stripping the ends keeps the charset and the absence of `--`. */
  lemma StripHyphensShape(s: string)
    requires SlugCharset(s) && NoDoubleHyphen(s)
    ensures SlugCharset(StripHyphens(s)) && NoDoubleHyphen(StripHyphens(s))
  {
    var lead := DropLeadingHyphens(s);
    var r := DropTrailingHyphens(lead);
    var lo := |s| - |lead|;
    SliceOfSuffix(s, lo, |r|);
    InfixKeepsSlugShape(s, lo, lo + |r|);
  }

  lemma SliceOfSuffix(s: string, lo: int, n: int)
    requires 0 <= lo && 0 <= n && lo + n <= |s|
    ensures s[lo..][..n] == s[lo..lo + n]
  {
    assert forall i :: 0 <= i < n ==> s[lo..][..n][i] == s[lo + i];
  }

  /** A piece of `s` keeps the charset and the absence of `--`. */
  lemma InfixKeepsSlugShape(s: string, lo: int, hi: int)
    requires 0 <= lo <= hi <= |s|
    ensures SlugCharset(s) && NoDoubleHyphen(s) ==> SlugCharset(s[lo..hi]) && NoDoubleHyphen(s[lo..hi])
  {
    if SlugCharset(s) && NoDoubleHyphen(s) {
      var t := s[lo..hi];
      forall i | 0 <= i < |t| - 1
        ensures !(t[i] == '-' && t[i + 1] == '-')
      {
        assert t[i] == s[lo + i] && t[i + 1] == s[lo + i + 1];
      }
    }
  }

  function SkipHyphens(s: string): (r: string)
    ensures |r| <= |s|
    ensures r == [] || r[0] != '-'
  {
    if s != [] && s[0] == '-' then SkipHyphens(s[1..]) else s
  }

  /** `s.replace(/-+/g, "-")`: every run of `-` becomes one. */
  function CollapseHyphens(s: string): (r: string)
    decreases |s|
  {
    if s == [] then []
    else if s[0] != '-' then [s[0]] + CollapseHyphens(s[1..])
    else "-" + CollapseHyphens(SkipHyphens(s[1..]))
  }

  /** The last `replace` of `slugify` changes nothing once runs are single. */
  lemma {:induction false} CollapseSingleHyphens(s: string)
    requires NoDoubleHyphen(s)
    ensures CollapseHyphens(s) == s
  {
    if s != [] {
      InfixKeepsOneHyphen(s);
      CollapseSingleHyphens(s[1..]);
      if s[0] == '-' {
        assert SkipHyphens(s[1..]) == s[1..];
      }
    }
  }

  lemma InfixKeepsOneHyphen(s: string)
    requires s != [] && NoDoubleHyphen(s)
    ensures NoDoubleHyphen(s[1..])
    ensures s[0] == '-' ==> s[1..] == [] || s[1] != '-'
  {
    var t := s[1..];
    forall i | 0 <= i < |t| - 1
      ensures !(t[i] == '-' && t[i + 1] == '-')
    {
      assert t[i] == s[i + 1] && t[i + 1] == s[i + 2];
    }
  }

  /** `String(value || "")` followed by `toLowerCase` and the `&` rule. */
  function SlugInput(value: Option<string>): string {
    ReplaceChar(Lower(value.GetOr("")), '&', " and ")
  }

  /**
   * `slugify`: lower-case, `&` as the word `and`, runs of other characters
   * as one `-`, no `-` at the ends. A missing value gives `""`.
   */
  function Slugify(value: Option<string>): (slug: string)
    ensures IsSlug(slug)
    ensures value.None? ==> slug == ""
  {
    var hyphenated := Hyphenate(SlugInput(value));
    var stripped := StripHyphens(hyphenated);
    StripHyphensShape(hyphenated);
    CollapseSingleHyphens(stripped);
    CollapseHyphens(stripped)
  }

  /** The last `replace` of `slugify` never changes anything. */
  lemma SlugifyWithoutCollapse(value: Option<string>)
    ensures Slugify(value) == StripHyphens(Hyphenate(SlugInput(value)))
  {
    var stripped := StripHyphens(Hyphenate(SlugInput(value)));
    CollapseSingleHyphens(stripped);
  }

  /** `Hyphenate` leaves alone what is already in slug shape. */
  lemma {:induction false} HyphenateOfSlugShape(s: string)
    requires SlugCharset(s) && NoDoubleHyphen(s)
    ensures Hyphenate(s) == s
  {
    if s != [] {
      InfixKeepsOneHyphen(s);
      assert SlugCharset(s[1..]) by {
        forall i | 0 <= i < |s[1..]|
          ensures IsSlugChar(s[1..][i]) || s[1..][i] == '-'
        {
          assert s[1..][i] == s[i + 1];
        }
      }
      HyphenateOfSlugShape(s[1..]);
      if !IsSlugChar(s[0]) {
        assert s[1..] == [] || IsSlugChar(s[1]);
        assert SkipNonSlug(s[1..]) == s[1..];
      }
    }
  }

  /** A slug is its own slug. */
  lemma SlugifyOfSlug(s: string)
    requires IsSlug(s)
    ensures Slugify(Some(s)) == s
  {
    LowerOfLower(s);
    assert '&' !in s by {
      forall i | 0 <= i < |s|
        ensures s[i] != '&'
      {
        assert IsSlugChar(s[i]) || s[i] == '-';
      }
    }
    ReplaceCharAbsent(s, '&', " and ");
    assert SlugInput(Some(s)) == s;
    HyphenateOfSlugShape(s);
    assert DropLeadingHyphens(s) == s;
    assert DropTrailingHyphens(s) == s;
    CollapseSingleHyphens(s);
  }

  /** `slugify` is idempotent. */
  lemma SlugifyIdempotent(value: Option<string>)
    ensures Slugify(Some(Slugify(value))) == Slugify(value)
  {
    SlugifyOfSlug(Slugify(value));
  }

  lemma {:induction false} LowerConcat(a: string, b: string)
    ensures Lower(a + b) == Lower(a) + Lower(b)
  {
    var ab, la, lb := a + b, Lower(a), Lower(b);
    var l := Lower(ab);
    forall i | 0 <= i < |ab|
      ensures l[i] == (la + lb)[i]
    {
      if i < |a| {
        assert ab[i] == a[i] && (la + lb)[i] == la[i];
      } else {
        assert ab[i] == b[i - |a|] && (la + lb)[i] == lb[i - |a|];
      }
    }
    assert l == la + lb;
  }

  /** An `&` reads as the word `and` with a space on each side. */
  lemma AmpersandReadsAsAnd(a: string, b: string)
    ensures Slugify(Some(a + "&" + b)) == Slugify(Some(a + " and " + b))
  {
    AndLiterals();
    SlugInputAround(a, "&", b);
    SlugInputAround(a, " and ", b);
  }

  lemma AndLiterals()
    ensures Lower("&") == "&" && Lower(" and ") == " and "
    ensures ReplaceChar("&", '&', " and ") == " and " && ReplaceChar(" and ", '&', " and ") == " and "
  {
    ReplaceCharAbsent(" and ", '&', " and ");
  }

  /** The input of the slug rules for three pieces, the middle one already in lower case. */
  lemma SlugInputAround(a: string, mid: string, b: string)
    requires Lower(mid) == mid
    ensures SlugInput(Some(a + mid + b)) ==
      ReplaceChar(Lower(a), '&', " and ") + ReplaceChar(mid, '&', " and ") + ReplaceChar(Lower(b), '&', " and ")
  {
    LowerConcat(a + mid, b);
    LowerConcat(a, mid);
    var la, lb := Lower(a), Lower(b);
    ReplaceCharConcat(la + mid, lb, '&', " and ");
    ReplaceCharConcat(la, mid, '&', " and ");
  }

  /** A word of slug characters passes through `Hyphenate`. */
  lemma {:induction false} HyphenateWord(w: string, rest: string)
    requires forall i :: 0 <= i < |w| ==> IsSlugChar(w[i])
    ensures Hyphenate(w + rest) == w + Hyphenate(rest)
  {
    if w == [] {
      assert w + rest == rest;
    } else {
      assert (w + rest)[0] == w[0] && (w + rest)[1..] == w[1..] + rest;
      HyphenateWord(w[1..], rest);
      assert [w[0]] + (w[1..] + Hyphenate(rest)) == w + Hyphenate(rest);
    }
  }

  lemma {:induction false} SkipGap(g: string, rest: string)
    requires forall i :: 0 <= i < |g| ==> !IsSlugChar(g[i])
    requires rest == [] || IsSlugChar(rest[0])
    ensures SkipNonSlug(g + rest) == rest
  {
    if g != [] {
      assert (g + rest)[0] == g[0] && (g + rest)[1..] == g[1..] + rest;
      SkipGap(g[1..], rest);
    } else {
      assert g + rest == rest;
    }
  }

  /** A gap of other characters before a word becomes one `-`. */
  lemma HyphenateGap(g: string, rest: string)
    requires g != [] && forall i :: 0 <= i < |g| ==> !IsSlugChar(g[i])
    requires rest == [] || IsSlugChar(rest[0])
    ensures Hyphenate(g + rest) == "-" + Hyphenate(rest)
  {
    assert (g + rest)[0] == g[0] && (g + rest)[1..] == g[1..] + rest;
    SkipGap(g[1..], rest);
  }

  /** A word of ASCII letters and digits. */
  predicate IsWord(w: string) {
    w != [] && forall i :: 0 <= i < |w| ==> IsSlugChar(LowerChar(w[i]))
  }

  lemma LowerWord(w: string)
    requires IsWord(w)
    ensures Lower(w) != [] && (forall i :: 0 <= i < |Lower(w)| ==> IsSlugChar(Lower(w)[i]))
    ensures '&' !in Lower(w)
  {
    var l := Lower(w);
    forall i | 0 <= i < |l|
      ensures l[i] != '&'
    {
      assert IsSlugChar(l[i]);
    }
  }

  lemma AmpersandGap()
    ensures Lower(" & ") == " & "
    ensures ReplaceChar(" & ", '&', " and ") == "  and  "
  {
    var g := " & ";
    assert g[1..] == "& " && g[1..][1..] == " " && g[1..][1..][1..] == [];
  }

  lemma SplitAroundAnd(la: string, lb: string)
    ensures la + "  and  " + lb == la + ("  " + ("and" + ("  " + lb)))
    ensures la + ("-" + ("and" + ("-" + lb))) == la + "-and-" + lb
  {
    assert "  and  " == "  " + "and" + "  ";
    assert "-and-" == "-" + "and" + "-";
  }

  lemma AndPieces()
    ensures forall i :: 0 <= i < |"and"| ==> IsSlugChar("and"[i])
    ensures "  " != [] && forall i :: 0 <= i < |"  "| ==> !IsSlugChar("  "[i])
  {
  }

  lemma SlugInputAmpersand(a: string, b: string)
    requires IsWord(a) && IsWord(b)
    ensures SlugInput(Some(a + " & " + b)) == Lower(a) + "  and  " + Lower(b)
  {
    var la, lb := Lower(a), Lower(b);
    LowerWord(a);
    LowerWord(b);
    AmpersandGap();
    LowerConcat(a + " & ", b);
    LowerConcat(a, " & ");
    ReplaceCharConcat(la + " & ", lb, '&', " and ");
    ReplaceCharConcat(la, " & ", '&', " and ");
    ReplaceCharAbsent(la, '&', " and ");
    ReplaceCharAbsent(lb, '&', " and ");
  }

  lemma HyphenateAnd(la: string, lb: string)
    requires forall i :: 0 <= i < |la| ==> IsSlugChar(la[i])
    requires lb != [] && forall i :: 0 <= i < |lb| ==> IsSlugChar(lb[i])
    ensures Hyphenate(la + "  and  " + lb) == la + "-and-" + lb
  {
    SplitAroundAnd(la, lb);
    HyphenateAndTail(lb);
    HyphenateWord(la, "  " + ("and" + ("  " + lb)));
  }

  lemma HyphenateAndTail(lb: string)
    requires lb != [] && forall i :: 0 <= i < |lb| ==> IsSlugChar(lb[i])
    ensures Hyphenate("  " + ("and" + ("  " + lb))) == "-" + ("and" + ("-" + lb))
  {
    AndPieces();
    HyphenateWord(lb, "");
    assert lb + "" == lb;
    HyphenateGap("  ", lb);
    HyphenateWord("and", "  " + lb);
    HyphenateGap("  ", "and" + ("  " + lb));
  }

  /**
   * `&` between two words becomes the word `and`: `"A & B"` gives
   * `"a-and-b"`, and so does any pair of words around ` & `.
   */
  lemma SlugifyAmpersandWords(a: string, b: string)
    requires IsWord(a) && IsWord(b)
    ensures Slugify(Some(a + " & " + b)) == Lower(a) + "-and-" + Lower(b)
  {
    var la, lb := Lower(a), Lower(b);
    LowerWord(a);
    LowerWord(b);
    SlugInputAmpersand(a, b);
    HyphenateAnd(la, lb);
    var h := la + "-and-" + lb;
    assert h[0] == la[0] && h[|h| - 1] == lb[|lb| - 1];
    assert DropLeadingHyphens(h) == h;
    assert DropTrailingHyphens(h) == h;
    SlugifyWithoutCollapse(Some(a + " & " + b));
  }

  /** `"A & B"` gives `"a-and-b"`. */
  lemma SlugifyExample()
    ensures Slugify(Some("A & B")) == "a-and-b"
  {
    assert IsWord("A") && IsWord("B");
    SlugifyAmpersandWords("A", "B");
    assert "A" + " & " + "B" == "A & B";
    assert Lower("A") == "a" && Lower("B") == "b";
    assert "a" + "-and-" + "b" == "a-and-b";
  }

  // ---------------------------------------------------------------------
  // escapeHtml

  /** `escapeHtml`: four global replacements, `&` first. */
  function EscapeHtml(value: string): string {
    ReplaceChar(ReplaceChar(ReplaceChar(ReplaceChar(value, '&', "&amp;"), '<', "&lt;"), '>', "&gt;"), '"', "&quot;")
  }

  /** The reference: each character on its own. */
  function EscapeChar(c: char): string {
    if c == '&' then "&amp;"
    else if c == '<' then "&lt;"
    else if c == '>' then "&gt;"
    else if c == '"' then "&quot;"
    else [c]
  }

  function EscapeEach(s: string): string {
    if s == [] then [] else EscapeChar(s[0]) + EscapeEach(s[1..])
  }

  lemma EscapeHtmlConcat(a: string, b: string)
    ensures EscapeHtml(a + b) == EscapeHtml(a) + EscapeHtml(b)
  {
    var a1, b1 := ReplaceChar(a, '&', "&amp;"), ReplaceChar(b, '&', "&amp;");
    var a2, b2 := ReplaceChar(a1, '<', "&lt;"), ReplaceChar(b1, '<', "&lt;");
    var a3, b3 := ReplaceChar(a2, '>', "&gt;"), ReplaceChar(b2, '>', "&gt;");
    ReplaceCharConcat(a, b, '&', "&amp;");
    ReplaceCharConcat(a1, b1, '<', "&lt;");
    ReplaceCharConcat(a2, b2, '>', "&gt;");
    ReplaceCharConcat(a3, b3, '"', "&quot;");
  }

  lemma ReplaceCharOfChar(c: char, d: char, rep: string)
    ensures ReplaceChar([c], d, rep) == if c == d then rep else [c]
  {
    assert [c][1..] == [];
  }

  lemma EscapeHtmlOfChar(c: char)
    ensures EscapeHtml([c]) == EscapeChar(c)
  {
    if c == '&' {
      EscapeAmpersand();
    } else if c == '<' {
      EscapeLessThan();
    } else if c == '>' {
      EscapeGreaterThan();
    } else if c == '"' {
      EscapeQuote();
    } else {
      ReplaceCharOfChar(c, '&', "&amp;");
      ReplaceCharOfChar(c, '<', "&lt;");
      ReplaceCharOfChar(c, '>', "&gt;");
      ReplaceCharOfChar(c, '"', "&quot;");
    }
  }

  /** The entity references hold none of the characters replaced after `&`. */
  lemma EntityLetters()
    ensures '<' !in "&amp;" && '>' !in "&amp;" && '"' !in "&amp;"
    ensures '>' !in "&lt;" && '"' !in "&lt;"
    ensures '"' !in "&gt;"
  {
  }

  lemma EscapeAmpersand()
    ensures EscapeHtml("&") == "&amp;"
  {
    EntityLetters();
    ReplaceCharOfChar('&', '&', "&amp;");
    ReplaceCharAbsent("&amp;", '<', "&lt;");
    ReplaceCharAbsent("&amp;", '>', "&gt;");
    ReplaceCharAbsent("&amp;", '"', "&quot;");
  }

  lemma EscapeLessThan()
    ensures EscapeHtml("<") == "&lt;"
  {
    ReplaceCharOfChar('<', '&', "&amp;");
    ReplaceCharOfChar('<', '<', "&lt;");
    EntityLetters();
    ReplaceCharAbsent("&lt;", '>', "&gt;");
    ReplaceCharAbsent("&lt;", '"', "&quot;");
  }

  lemma EscapeGreaterThan()
    ensures EscapeHtml(">") == "&gt;"
  {
    ReplaceCharOfChar('>', '&', "&amp;");
    ReplaceCharOfChar('>', '<', "&lt;");
    ReplaceCharOfChar('>', '>', "&gt;");
    EntityLetters();
    ReplaceCharAbsent("&gt;", '"', "&quot;");
  }

  lemma EscapeQuote()
    ensures EscapeHtml("\"") == "&quot;"
  {
    ReplaceCharOfChar('"', '&', "&amp;");
    ReplaceCharOfChar('"', '<', "&lt;");
    ReplaceCharOfChar('"', '>', "&gt;");
    ReplaceCharOfChar('"', '"', "&quot;");
  }

  /** The replacement chain escapes each character independently. */
  lemma {:induction false} EscapeHtmlIsPerChar(s: string)
    ensures EscapeHtml(s) == EscapeEach(s)
  {
    if s == [] {
    } else {
      assert s == [s[0]] + s[1..];
      EscapeHtmlConcat([s[0]], s[1..]);
      EscapeHtmlOfChar(s[0]);
      EscapeHtmlIsPerChar(s[1..]);
    }
  }

  /** Every `&` begins one of the four entity references. */
  predicate AmpersandsStartEntities(s: string) {
    forall i :: 0 <= i < |s| && s[i] == '&' ==>
      (OccursAt(s, "&amp;", i) || OccursAt(s, "&lt;", i) || OccursAt(s, "&gt;", i) || OccursAt(s, "&quot;", i))
  }

  predicate HtmlSafe(s: string) {
    '<' !in s && '>' !in s && '"' !in s && AmpersandsStartEntities(s)
  }

  lemma HtmlSafeOfChar(c: char)
    ensures HtmlSafe(EscapeChar(c))
  {
    var e := EscapeChar(c);
    forall i | 0 <= i < |e| && e[i] == '&'
      ensures OccursAt(e, "&amp;", i) || OccursAt(e, "&lt;", i) || OccursAt(e, "&gt;", i) || OccursAt(e, "&quot;", i)
    {
      assert i == 0;
      assert e[0..|e|] == e;
    }
  }

  lemma HtmlSafeConcat(a: string, b: string)
    requires HtmlSafe(a) && HtmlSafe(b)
    ensures HtmlSafe(a + b)
  {
    var s := a + b;
    forall i | 0 <= i < |s| && s[i] == '&'
      ensures OccursAt(s, "&amp;", i) || OccursAt(s, "&lt;", i) || OccursAt(s, "&gt;", i) || OccursAt(s, "&quot;", i)
    {
      if i < |a| {
        assert a[i] == '&';
        forall t: string | OccursAt(a, t, i)
          ensures OccursAt(s, t, i)
        {
          assert s[i..i + |t|] == a[i..i + |t|];
        }
      } else {
        var j := i - |a|;
        assert b[j] == '&';
        forall t: string | OccursAt(b, t, j)
          ensures OccursAt(s, t, i)
        {
          assert s[i..i + |t|] == b[j..j + |t|];
        }
      }
    }
  }

  lemma {:induction false} EscapeEachIsSafe(s: string)
    ensures HtmlSafe(EscapeEach(s))
  {
    if s != [] {
      HtmlSafeOfChar(s[0]);
      EscapeEachIsSafe(s[1..]);
      HtmlSafeConcat(EscapeChar(s[0]), EscapeEach(s[1..]));
    }
  }

  /** The output has no `<`, `>` or `"`, and each `&` starts an entity reference. */
  lemma EscapeHtmlIsSafe(s: string)
    ensures HtmlSafe(EscapeHtml(s))
  {
    EscapeHtmlIsPerChar(s);
    EscapeEachIsSafe(s);
  }

  /** Text without the four special characters passes through unchanged. */
  lemma {:induction false} EscapeHtmlKeepsPlainText(s: string)
    requires '&' !in s && '<' !in s && '>' !in s && '"' !in s
    ensures EscapeHtml(s) == s
  {
    EscapeHtmlIsPerChar(s);
    EscapeEachKeepsPlainText(s);
  }

  lemma {:induction false} EscapeEachKeepsPlainText(s: string)
    requires '&' !in s && '<' !in s && '>' !in s && '"' !in s
    ensures EscapeEach(s) == s
  {
    if s != [] {
      assert s[0] in s;
      EscapeEachKeepsPlainText(s[1..]);
    }
  }

  /** How an HTML reader decodes the four entity references. */
  function Unescape(s: string): string
    decreases |s|
  {
    if s == [] then []
    else if |s| >= 5 && s[..5] == "&amp;" then "&" + Unescape(s[5..])
    else if |s| >= 4 && s[..4] == "&lt;" then "<" + Unescape(s[4..])
    else if |s| >= 4 && s[..4] == "&gt;" then ">" + Unescape(s[4..])
    else if |s| >= 6 && s[..6] == "&quot;" then "\"" + Unescape(s[6..])
    else [s[0]] + Unescape(s[1..])
  }

  lemma UnescapeChar(c: char, rest: string)
    ensures Unescape(EscapeChar(c) + rest) == [c] + Unescape(rest)
  {
    if c == '&' {
      UnescapeAmpersand(rest);
    } else if c == '<' {
      UnescapeLessThan(rest);
    } else if c == '>' {
      UnescapeGreaterThan(rest);
    } else if c == '"' {
      UnescapeQuote(rest);
    } else {
      var s := [c] + rest;
      assert s[0] == c && s[1..] == rest;
    }
  }

  lemma UnescapeAmpersand(rest: string)
    ensures Unescape("&amp;" + rest) == "&" + Unescape(rest)
  {
    var s := "&amp;" + rest;
    assert s[..5] == "&amp;" && s[5..] == rest;
  }

  lemma UnescapeLessThan(rest: string)
    ensures Unescape("&lt;" + rest) == "<" + Unescape(rest)
  {
    var s := "&lt;" + rest;
    assert |s| >= 5 ==> s[..5][1] == 'l';
    assert s[..4] == "&lt;" && s[4..] == rest;
  }

  lemma UnescapeGreaterThan(rest: string)
    ensures Unescape("&gt;" + rest) == ">" + Unescape(rest)
  {
    var s := "&gt;" + rest;
    assert (|s| >= 5 ==> s[..5][1] == 'g') && s[..4][1] == 'g';
    assert s[..4] == "&gt;" && s[4..] == rest;
  }

  lemma UnescapeQuote(rest: string)
    ensures Unescape("&quot;" + rest) == "\"" + Unescape(rest)
  {
    var s := "&quot;" + rest;
    assert s[..5][1] == 'q' && s[..4][1] == 'q';
    assert s[..6] == "&quot;" && s[6..] == rest;
  }

  lemma {:induction false} UnescapeEscapeEach(s: string)
    ensures Unescape(EscapeEach(s)) == s
  {
    if s != [] {
      UnescapeChar(s[0], EscapeEach(s[1..]));
      UnescapeEscapeEach(s[1..]);
    }
  }

  /** Decoding the escaped text gives the text back: `escapeHtml` loses nothing. */
  lemma UnescapeEscapeHtml(s: string)
    ensures Unescape(EscapeHtml(s)) == s
  {
    EscapeHtmlIsPerChar(s);
    UnescapeEscapeEach(s);
  }

  // ---------------------------------------------------------------------
  // buildSitemap

  const XmlDeclaration := "<?xml version=\"1.0\" encoding=\"UTF-8\"?>"
  /** The namespace of the Sitemaps protocol, version 0.9. */
  const SitemapNamespace := "http://www.sitemaps.org/schemas/sitemap/0.9"
  const UrlsetOpen := "<urlset xmlns=\"" + SitemapNamespace + "\">"
  const UrlsetClose := "</urlset>"

  /** The `<url>` element of one location, on three lines. */
  function UrlEntry(loc: string): string {
    "  <url>" + "\n" + LocLine(loc) + "\n" + "  </url>"
  }

  /** The middle line of a `<url>` element. */
  function LocLine(loc: string): string {
    "    <loc>" + loc + "</loc>"
  }

  function UrlEntries(urls: seq<string>): (r: seq<string>)
    ensures |r| == |urls|
  {
    if urls == [] then [] else [UrlEntry(urls[0])] + UrlEntries(urls[1..])
  }

  /** `buildSitemap`: the entries joined by newlines inside the `urlset` element. */
  function BuildSitemap(urls: seq<string>): string {
    XmlDeclaration + "\n" + UrlsetOpen + "\n" + Join(UrlEntries(urls), '\n') + "\n" + UrlsetClose + "\n"
  }

  function UrlBlock(loc: string): seq<string> {
    ["  <url>", LocLine(loc), "  </url>"]
  }

  /** The lines the sitemap holds for the locations, three each. */
  function UrlLines(urls: seq<string>): (r: seq<string>)
    ensures |r| == 3 * |urls|
  {
    if urls == [] then [] else UrlBlock(urls[0]) + UrlLines(urls[1..])
  }

  lemma {:induction false} UrlLinesAt(urls: seq<string>, k: nat)
    requires k < |urls|
    ensures UrlLines(urls)[3 * k + 1] == LocLine(urls[k])
  {
    if k > 0 {
      UrlLinesAt(urls[1..], k - 1);
      assert UrlLines(urls)[3 * k + 1] == UrlLines(urls[1..])[3 * (k - 1) + 1];
    }
  }

  predicate NoLineBreaks(lines: seq<string>) {
    forall i :: 0 <= i < |lines| ==> '\n' !in lines[i]
  }

  lemma NoLineBreaksConcat(a: seq<string>, b: seq<string>)
    requires NoLineBreaks(a) && NoLineBreaks(b)
    ensures NoLineBreaks(a + b)
  {
    forall i | 0 <= i < |a + b|
      ensures '\n' !in (a + b)[i]
    {
      if i < |a| {
        assert (a + b)[i] == a[i];
      } else {
        assert (a + b)[i] == b[i - |a|];
      }
    }
  }

  lemma LocLineNoBreak(loc: string)
    requires '\n' !in loc
    ensures '\n' !in LocLine(loc)
  {
    assert '\n' !in "    <loc>" && '\n' !in "</loc>";
  }

  lemma {:induction false} UrlLinesNoBreaks(urls: seq<string>)
    requires forall k :: 0 <= k < |urls| ==> '\n' !in urls[k]
    ensures NoLineBreaks(UrlLines(urls))
  {
    if urls != [] {
      LocLineNoBreak(urls[0]);
      assert '\n' !in "  <url>" && '\n' !in "  </url>";
      assert NoLineBreaks(UrlBlock(urls[0]));
      UrlLinesNoBreaks(urls[1..]);
      NoLineBreaksConcat(UrlBlock(urls[0]), UrlLines(urls[1..]));
    }
  }

  lemma {:induction false} JoinConcat(a: seq<string>, b: seq<string>, c: char)
    requires |a| >= 1 && |b| >= 1
    ensures Join(a + b, c) == Join(a, c) + [c] + Join(b, c)
  {
    if |a| == 1 {
      assert (a + b)[0] == a[0] && (a + b)[1..] == b;
    } else {
      assert (a + b)[0] == a[0] && (a + b)[1..] == a[1..] + b;
      JoinConcat(a[1..], b, c);
    }
  }

  lemma UrlEntryLines(loc: string)
    ensures UrlEntry(loc) == Join(UrlBlock(loc), '\n')
  {
    var b := UrlBlock(loc);
    assert b[1..] == [LocLine(loc), "  </url>"];
    assert b[1..][1..] == ["  </url>"];
    assert Join(b[1..], '\n') == LocLine(loc) + "\n" + "  </url>";
    assert Join(b, '\n') == "  <url>" + "\n" + (LocLine(loc) + "\n" + "  </url>");
  }

  lemma {:induction false} JoinUrlEntries(urls: seq<string>)
    requires |urls| >= 1
    ensures Join(UrlEntries(urls), '\n') == Join(UrlLines(urls), '\n')
  {
    UrlEntryLines(urls[0]);
    if |urls| == 1 {
      assert UrlEntries(urls) == [UrlEntry(urls[0])];
      assert urls[1..] == [];
      assert UrlLines(urls) == UrlBlock(urls[0]);
    } else {
      JoinUrlEntries(urls[1..]);
      JoinConcat([UrlEntry(urls[0])], UrlEntries(urls[1..]), '\n');
      JoinConcat(UrlBlock(urls[0]), UrlLines(urls[1..]), '\n');
    }
  }

  /** The body lines: three per location, or one empty line when there is none. */
  function BodyLines(urls: seq<string>): seq<string> {
    if urls == [] then [""] else UrlLines(urls)
  }

  /** All the lines of the sitemap, in order. */
  function SitemapLineList(urls: seq<string>): seq<string> {
    [XmlDeclaration, UrlsetOpen] + BodyLines(urls) + [UrlsetClose, ""]
  }

  lemma SitemapIsJoin(urls: seq<string>)
    ensures BuildSitemap(urls) == Join(SitemapLineList(urls), '\n')
  {
    var body := BodyLines(urls);
    if urls != [] {
      JoinUrlEntries(urls);
    }
    assert Join(UrlEntries(urls), '\n') == Join(body, '\n');
    var head := [XmlDeclaration, UrlsetOpen];
    var tail := [UrlsetClose, ""];
    assert Join(head, '\n') == XmlDeclaration + "\n" + UrlsetOpen by {
      assert head[1..] == [UrlsetOpen];
    }
    assert Join(tail, '\n') == UrlsetClose + "\n" by {
      assert tail[1..] == [""];
    }
    JoinConcat(head, body, '\n');
    JoinConcat(head + body, tail, '\n');
  }

  lemma UrlsetOpenNoBreak()
    ensures '\n' !in UrlsetOpen
  {
    assert '\n' !in SitemapNamespace;
  }

  lemma FrameNoBreaks()
    ensures NoLineBreaks([XmlDeclaration, UrlsetOpen]) && NoLineBreaks([UrlsetClose, ""]) && NoLineBreaks([""])
  {
    assert '\n' !in XmlDeclaration && '\n' !in UrlsetClose;
    UrlsetOpenNoBreak();
  }

  /**
   * Read line by line, the sitemap holds the declaration, the opening tag,
   * three lines per location in the order given, and the closing tag.
   */
  lemma SitemapLines(urls: seq<string>)
    requires forall k :: 0 <= k < |urls| ==> '\n' !in urls[k]
    ensures Split(BuildSitemap(urls), '\n') == SitemapLineList(urls)
  {
    SitemapIsJoin(urls);
    FrameNoBreaks();
    if urls != [] {
      UrlLinesNoBreaks(urls);
    }
    NoLineBreaksConcat([XmlDeclaration, UrlsetOpen], BodyLines(urls));
    NoLineBreaksConcat([XmlDeclaration, UrlsetOpen] + BodyLines(urls), [UrlsetClose, ""]);
    SplitJoin(SitemapLineList(urls), '\n');
  }

  /** The `k`-th location sits alone on line `3 * k + 3`, inside `<loc>`. */
  lemma SitemapListsEachUrl(urls: seq<string>, k: nat)
    requires forall j :: 0 <= j < |urls| ==> '\n' !in urls[j]
    requires k < |urls|
    ensures |Split(BuildSitemap(urls), '\n')| == 3 * |urls| + 4
    ensures Split(BuildSitemap(urls), '\n')[3 * k + 3] == "    <loc>" + urls[k] + "</loc>"
  {
    SitemapLines(urls);
    UrlLinesAt(urls, k);
    assert SitemapLineList(urls)[3 * k + 3] == UrlLines(urls)[3 * k + 1];
  }

  // ---------------------------------------------------------------------
  // injectSeoPages

  const SeoPlaceholder := "<!-- SEO_PAGES -->"

  /**
   * The replacement text of `String.prototype.replace` with a string
   * pattern (GetSubstitution without captures): `$$` is `$`, `$&` the match,
   * `` $` `` the text before it, `$'` the text after it; any other `$` is kept.
   */
  function Substitution(rep: string, matched: string, before: string, after: string): string
    decreases |rep|
  {
    if rep == [] then []
    else if |rep| >= 2 && rep[0] == '$' && rep[1] == '$' then "$" + Substitution(rep[2..], matched, before, after)
    else if |rep| >= 2 && rep[0] == '$' && rep[1] == '&' then matched + Substitution(rep[2..], matched, before, after)
    else if |rep| >= 2 && rep[0] == '$' && rep[1] == '`' then before + Substitution(rep[2..], matched, before, after)
    else if |rep| >= 2 && rep[0] == '$' && rep[1] == '\'' then after + Substitution(rep[2..], matched, before, after)
    else [rep[0]] + Substitution(rep[1..], matched, before, after)
  }

  /** A replacement without `$` is inserted literally. */
  lemma {:induction false} SubstitutionLiteral(rep: string, matched: string, before: string, after: string)
    requires '$' !in rep
    ensures Substitution(rep, matched, before, after) == rep
  {
    if rep != [] {
      assert rep[0] in rep;
      SubstitutionLiteral(rep[1..], matched, before, after);
    }
  }

  /** `s.replace(pattern, rep)` with a string pattern: only the first occurrence. */
  function ReplaceFirst(s: string, pattern: string, rep: string): string {
    match IndexOf(s, pattern)
    case None => s
    case Some(i) => s[..i] + Substitution(rep, pattern, s[..i], s[i + |pattern|..]) + s[i + |pattern|..]
  }

  /**
   * `injectSeoPages`: the new contents to write, or `None` when nothing is
   * written (the file could not be read, or it has no placeholder).
   */
  function InjectSeoPages(contents: Option<string>, linksHtml: string): (written: Option<string>)
    ensures written.Some? <==> contents.Some? && Includes(contents.value, SeoPlaceholder)
  {
    match contents
    case None => None
    case Some(text) =>
      if !Includes(text, SeoPlaceholder) then None
      else Some(ReplaceFirst(text, SeoPlaceholder, linksHtml))
  }

  /**
   * With a placeholder, the links take the place of its first occurrence;
   * the text before is placeholder-free and the text after is kept as is,
   * later placeholders included.
   */
  lemma InjectReplacesFirstPlaceholder(text: string, linksHtml: string)
    requires Includes(text, SeoPlaceholder) && '$' !in linksHtml
    ensures exists i ::
      OccursAt(text, SeoPlaceholder, i) && (forall j :: 0 <= j < i ==> !OccursAt(text, SeoPlaceholder, j)) &&
      InjectSeoPages(Some(text), linksHtml) == Some(text[..i] + linksHtml + text[i + |SeoPlaceholder|..])
  {
    var i := IndexOf(text, SeoPlaceholder).value;
    SubstitutionLiteral(linksHtml, SeoPlaceholder, text[..i], text[i + |SeoPlaceholder|..]);
  }

  /** The written text is one placeholder shorter and one link block longer. */
  lemma InjectOnceReplacesOne(text: string, linksHtml: string)
    requires Includes(text, SeoPlaceholder) && '$' !in linksHtml
    ensures |InjectSeoPages(Some(text), linksHtml).value| == |text| - |SeoPlaceholder| + |linksHtml|
  {
    InjectReplacesFirstPlaceholder(text, linksHtml);
  }
}
