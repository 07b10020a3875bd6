/**
 * A model of index.js, the page script of a small catalog of "useless buttons":
 * a search box filters the catalog, each catalog card has an Open link, and
 * opening an item shows one of three panels (a click counter, a random colour,
 * or the item's own text).  Only the logic of the script is modelled; the DOM
 * is represented by the values the script writes into it.
 */
module Buttons {
  import opened JsString

  /** One catalog entry, `{ title, description }`. */
  datatype Item = Item(title: string, description: string)

  /** `sampleButtons`; `buttonsList` is a copy of it that the script never changes. */
  const SampleButtons: seq<Item> := [
    Item("Endless Button", "A button that only counts clicks."),
    Item("Random Color Button", "Show a random color and its hex value.")
  ]

  // ===========================================================================
  // escapeHtml
  // ===========================================================================

  /** The five characters `escapeHtml` rewrites. */
  predicate IsSpecial(c: char)
  {
    c == '&' || c == '<' || c == '>' || c == '"' || c == '\''
  }

  /** The replacement table of `escapeHtml`; any other character stands for itself. */
  function EscapeChar(c: char): string
  {
    match c
    case '&' => "&amp;"
    case '<' => "&lt;"
    case '>' => "&gt;"
    case '"' => "&quot;"
    case '\'' => "&#39;"
    case _ => [c]
  }

  /** `escapeHtml`: every special character replaced by its entity, left to right. */
  function EscapeHtml(text: string): (r: string)
    ensures |r| >= |text|
  {
    if text == [] then [] else EscapeChar(text[0]) + EscapeHtml(text[1..])
  }

  /** `t` starts with one of the five entities `escapeHtml` writes. */
  predicate BeginsEntity(t: string)
  {
    "&amp;" <= t || "&lt;" <= t || "&gt;" <= t || "&quot;" <= t || "&#39;" <= t
  }

  /** No markup character, and every `&` opens one of the five entities. */
  predicate IsEscaped(r: string)
  {
    (forall i :: 0 <= i < |r| ==> r[i] != '<' && r[i] != '>' && r[i] != '"' && r[i] != '\'')
    && (forall i :: 0 <= i < |r| && r[i] == '&' ==> BeginsEntity(r[i..]))
  }

  /**
   * Decoding of exactly the five entities `escapeHtml` writes; any other
   * character, including the `&` of any other character reference, stands for itself.
   */
  function Unescape(s: string): string
    decreases |s|
  {
    if s == [] then []
    else if "&amp;" <= s then "&" + Unescape(s[5..])
    else if "&lt;" <= s then "<" + Unescape(s[4..])
    else if "&gt;" <= s then ">" + Unescape(s[4..])
    else if "&quot;" <= s then "\"" + Unescape(s[6..])
    else if "&#39;" <= s then "'" + Unescape(s[5..])
    else [s[0]] + Unescape(s[1..])
  }

  /** Escaping distributes over concatenation. */
  lemma {:induction false} EscapeHtmlConcat(a: string, b: string)
    ensures EscapeHtml(a + b) == EscapeHtml(a) + EscapeHtml(b)
  {
    if a == [] {
      assert a + b == b;
    } else {
      assert (a + b)[1..] == a[1..] + b;
      EscapeHtmlConcat(a[1..], b);
    }
  }

  /** The table: each special character becomes exactly its entity, any other character itself. */
  lemma EscapeHtmlTable(c: char)
    ensures EscapeHtml("&") == "&amp;" && EscapeHtml("<") == "&lt;" && EscapeHtml(">") == "&gt;"
    ensures EscapeHtml("\"") == "&quot;" && EscapeHtml("'") == "&#39;"
    ensures !IsSpecial(c) ==> EscapeHtml([c]) == [c]
  {
    assert EscapeHtml("&") == EscapeChar('&') + EscapeHtml([]);
    assert EscapeHtml("<") == EscapeChar('<') + EscapeHtml([]);
    assert EscapeHtml(">") == EscapeChar('>') + EscapeHtml([]);
    assert EscapeHtml("\"") == EscapeChar('"') + EscapeHtml([]);
    assert EscapeHtml("'") == EscapeChar('\'') + EscapeHtml([]);
    assert EscapeHtml([c]) == EscapeChar(c) + EscapeHtml([]);
  }

  lemma BeginsEntityConcat(t: string, u: string)
    requires BeginsEntity(t)
    ensures BeginsEntity(t + u)
  {
    var e :| e in ["&amp;", "&lt;", "&gt;", "&quot;", "&#39;"] && e <= t;
    assert (t + u)[..|e|] == t[..|e|];
  }

  lemma EscapedConcat(x: string, y: string)
    requires IsEscaped(x) && IsEscaped(y)
    ensures IsEscaped(x + y)
  {
    var r := x + y;
    forall i | 0 <= i < |r| ensures r[i] != '<' && r[i] != '>' && r[i] != '"' && r[i] != '\'' {
      if i < |x| { assert r[i] == x[i]; } else { assert r[i] == y[i - |x|]; }
    }
    forall i | 0 <= i < |r| && r[i] == '&' ensures BeginsEntity(r[i..]) {
      if i < |x| {
        assert r[i..] == x[i..] + y;
        assert x[i] == '&';
        BeginsEntityConcat(x[i..], y);
      } else {
        assert r[i..] == y[i - |x|..];
        assert y[i - |x|] == '&';
      }
    }
  }

  lemma EscapeCharEscaped(c: char)
    ensures IsEscaped(EscapeChar(c))
  {
    var e := EscapeChar(c);
    if IsSpecial(c) {
      assert e[0..] == e && BeginsEntity(e);
      assert forall i :: 1 <= i < |e| ==> e[i] != '&';
    } else {
      assert e == [c];
    }
  }

  /**
   * The output of `escapeHtml` holds none of `<`, `>`, `"`, `'`, and every `&`
   * in it begins one of the five entities.
   */
  lemma {:induction false} EscapeHtmlSafe(text: string)
    ensures IsEscaped(EscapeHtml(text))
  {
    if text != [] {
      EscapeCharEscaped(text[0]);
      EscapeHtmlSafe(text[1..]);
      EscapedConcat(EscapeChar(text[0]), EscapeHtml(text[1..]));
    }
  }

  /** Escaping never shortens, and it keeps the length exactly when there is nothing to escape. */
  lemma {:induction false} EscapeHtmlLength(text: string)
    ensures |EscapeHtml(text)| >= |text|
    ensures |EscapeHtml(text)| == |text| <==> forall i :: 0 <= i < |text| ==> !IsSpecial(text[i])
  {
    if text != [] {
      EscapeHtmlLength(text[1..]);
      if forall i :: 0 <= i < |text| ==> !IsSpecial(text[i]) {
        assert forall i :: 0 <= i < |text| - 1 ==> !IsSpecial(text[1..][i]) by {
          forall i | 0 <= i < |text| - 1 ensures !IsSpecial(text[1..][i]) {
            assert text[1..][i] == text[i + 1];
          }
        }
      } else {
        var j :| 0 <= j < |text| && IsSpecial(text[j]);
        if j > 0 {
          assert IsSpecial(text[1..][j - 1]);
        }
      }
    }
  }

  /** `escapeHtml` changes a string exactly when it holds one of the five special characters. */
  lemma EscapeHtmlIdentity(text: string)
    ensures EscapeHtml(text) == text <==> forall i :: 0 <= i < |text| ==> !IsSpecial(text[i])
  {
    EscapeHtmlLength(text);
    if forall i :: 0 <= i < |text| ==> !IsSpecial(text[i]) {
      EscapeHtmlPlain(text);
    }
  }

  lemma {:induction false} EscapeHtmlPlain(text: string)
    requires forall i :: 0 <= i < |text| ==> !IsSpecial(text[i])
    ensures EscapeHtml(text) == text
  {
    if text != [] {
      assert forall i :: 0 <= i < |text| - 1 ==> !IsSpecial(text[1..][i]) by {
        forall i | 0 <= i < |text| - 1 ensures !IsSpecial(text[1..][i]) {
          assert text[1..][i] == text[i + 1];
        }
      }
      EscapeHtmlPlain(text[1..]);
      assert !IsSpecial(text[0]);
      assert text == [text[0]] + text[1..];
    }
  }

  lemma UnescapeEscapeChar(c: char, rest: string)
    ensures Unescape(EscapeChar(c) + rest) == [c] + Unescape(rest)
  {
    var s := EscapeChar(c) + rest;
    if c == '&' {
      assert "&amp;" <= s && s[5..] == rest;
    } else if c == '<' {
      assert !("&amp;" <= s) by { assert s[1] == 'l'; }
      assert "&lt;" <= s && s[4..] == rest;
    } else if c == '>' {
      assert !("&amp;" <= s) && !("&lt;" <= s) by { assert s[1] == 'g'; }
      assert "&gt;" <= s && s[4..] == rest;
    } else if c == '"' {
      assert !("&amp;" <= s) && !("&lt;" <= s) && !("&gt;" <= s) by { assert s[1] == 'q'; }
      assert "&quot;" <= s && s[6..] == rest;
    } else if c == '\'' {
      assert !("&amp;" <= s) && !("&lt;" <= s) && !("&gt;" <= s) && !("&quot;" <= s) by { assert s[1] == '#'; }
      assert "&#39;" <= s && s[5..] == rest;
    } else {
      assert s[0] == c && s[1..] == rest;
    }
  }

  /** Decoding the output of `escapeHtml` gives back the original text. */
  lemma {:induction false} EscapeHtmlRoundTrip(text: string)
    ensures Unescape(EscapeHtml(text)) == text
  {
    if text != [] {
      UnescapeEscapeChar(text[0], EscapeHtml(text[1..]));
      EscapeHtmlRoundTrip(text[1..]);
      assert text == [text[0]] + text[1..];
    }
  }

  /** Distinct texts are rendered as distinct markup. */
  lemma EscapeHtmlInjective(a: string, b: string)
    ensures EscapeHtml(a) == EscapeHtml(b) ==> a == b
  {
    EscapeHtmlRoundTrip(a);
    EscapeHtmlRoundTrip(b);
  }

  // ===========================================================================
  // filterButtons
  // ===========================================================================

  /** The text an item is searched in: `(title + ' ' + description).toLowerCase()`. */
  function SearchText(b: Item): string
  {
    ToLowerCase(b.title + " " + b.description)
  }

  /** The query as it is matched: `query.toLowerCase().trim()`. */
  function NormalizeQuery(query: string): string
  {
    Trim(ToLowerCase(query))
  }

  /** Whether `filterButtons(query)` keeps item `b`. */
  predicate Matches(b: Item, query: string)
  {
    Includes(SearchText(b), NormalizeQuery(query))
  }

  /** `buttons.filter(...)` with an already normalised query `needle`. */
  function KeepContaining(buttons: seq<Item>, needle: string): (r: seq<Item>)
    ensures |r| <= |buttons|
    ensures forall b :: b in r <==> b in buttons && Includes(SearchText(b), needle)
  {
    if buttons == [] then []
    else
      var rest := KeepContaining(buttons[1..], needle);
      assert forall b :: b in buttons <==> b == buttons[0] || b in buttons[1..];
      if Includes(SearchText(buttons[0]), needle) then [buttons[0]] + rest else rest
  }

  /** `filterButtons(query)` over the catalog `buttons`. */
  function FilterButtons(buttons: seq<Item>, query: string): (r: seq<Item>)
    ensures |r| <= |buttons|
    ensures forall b :: b in r <==> b in buttons && Matches(b, query)
  {
    KeepContaining(buttons, NormalizeQuery(query))
  }

  /** `a` is `b` with some elements left out, the rest in their original order. */
  ghost predicate IsSubsequence<T>(a: seq<T>, b: seq<T>)
    decreases |b|
  {
    a == [] || (b != [] && ((a[0] == b[0] && IsSubsequence(a[1..], b[1..])) || IsSubsequence(a, b[1..])))
  }

  /**
   * An item is in the filtered list exactly when it is in the catalog and
   * matches. This restates the membership clause of `FilterButtons` as a lemma
   * about one item, so that it can be cited on its own.
   */
  lemma FilterMembership(buttons: seq<Item>, query: string, b: Item)
    ensures b in FilterButtons(buttons, query) <==> b in buttons && Matches(b, query)
  {
  }

  /** The filtered list keeps the catalog's order. */
  lemma {:induction false} FilterIsSubsequence(buttons: seq<Item>, query: string)
    ensures IsSubsequence(FilterButtons(buttons, query), buttons)
    decreases |buttons|
  {
    if buttons != [] {
      FilterIsSubsequence(buttons[1..], query);
      var r := FilterButtons(buttons, query);
      var rest := FilterButtons(buttons[1..], query);
      if Matches(buttons[0], query) {
        assert r == [buttons[0]] + rest;
        assert r[1..] == rest;
      } else {
        assert r == rest;
      }
    }
  }

  /** Filtering a concatenation filters each part. */
  lemma {:induction false} FilterConcat(a: seq<Item>, b: seq<Item>, query: string)
    ensures FilterButtons(a + b, query) == FilterButtons(a, query) + FilterButtons(b, query)
  {
    if a == [] {
      assert a + b == b;
    } else {
      assert (a + b)[0] == a[0] && (a + b)[1..] == a[1..] + b;
      FilterConcat(a[1..], b, query);
    }
  }

  /** A one-item catalog is kept exactly when its item matches. */
  lemma FilterSingle(b: Item, query: string)
    ensures FilterButtons([b], query) == if Matches(b, query) then [b] else []
  {
    assert [b][1..] == [];
  }

  lemma {:induction false} KeepContainingEmpty(buttons: seq<Item>)
    ensures KeepContaining(buttons, "") == buttons
  {
    if buttons != [] {
      IncludesEmpty(SearchText(buttons[0]));
      KeepContainingEmpty(buttons[1..]);
    }
  }

  /** An empty or all-white-space query keeps the whole catalog in its order. */
  lemma FilterBlankQuery(buttons: seq<Item>, query: string)
    requires AllWhiteSpace(query)
    ensures FilterButtons(buttons, query) == buttons
  {
    var lower := ToLowerCase(query);
    assert AllWhiteSpace(lower);
    TrimEmpty(lower);
    KeepContainingEmpty(buttons);
  }

  predicate Lacks(s: string, c: char)
  {
    forall k :: 0 <= k < |s| ==> s[k] != c
  }

  /** A string that lacks one of the characters of `sub` does not include `sub`. */
  lemma MissingCharNotIncluded(s: string, sub: string, c: char)
    requires c in sub && Lacks(s, c)
    ensures !Includes(s, sub)
  {
    IncludesSpec(s, sub);
  }

  lemma NormalizeColor()
    ensures NormalizeQuery("color") == "color"
  {
    assert ToLowerCase("color") == "color";
    assert LeadingWhiteSpace("color") == 0;
    assert TrailingWhiteSpace("color") == 0;
  }

  lemma SampleEndlessNoColor()
    ensures !Includes(SearchText(SampleButtons[0]), "color")
  {
    var s0 := "Endless Button" + " " + "A button that only counts clicks.";
    assert SampleButtons[0].title + " " + SampleButtons[0].description == s0;
    var t0 := ToLowerCase(s0);
    assert forall k :: 0 <= k < |s0| ==> s0[k] != 'r' && s0[k] != 'R';
    forall k | 0 <= k < |t0| ensures t0[k] != 'r' {
      assert t0[k] == LowerChar(s0[k]);
    }
    MissingCharNotIncluded(t0, "color", 'r');
  }

  lemma SampleColorHasColor()
    ensures Includes(SearchText(SampleButtons[1]), "color")
  {
    var b1 := SampleButtons[1];
    var t1 := SearchText(b1);
    var s1 := b1.title + " " + b1.description;
    assert s1[7..12] == "Color";
    forall k | 7 <= k < 12 ensures t1[k] == "color"[k - 7] {
      assert t1[k] == LowerChar(s1[k]);
    }
    assert OccursAt(t1, "color", 7);
    IncludesSpec(t1, "color");
  }

  /** With the sample catalog, the query "color" keeps only the Random Color Button. */
  lemma FilterSampleColor()
    ensures FilterButtons(SampleButtons, "color") == [SampleButtons[1]]
  {
    NormalizeColor();
    SampleEndlessNoColor();
    SampleColorHasColor();
    assert SampleButtons[1..][1..] == [];
  }

  // ===========================================================================
  // openButtonPanel
  // ===========================================================================

  /** The panel that opening an item shows. */
  datatype Panel = Counter | ColorSwap | Generic(title: string, description: string)

  /** `openButtonPanel`: "Endless" in the title wins over "Color"; otherwise the item's own text. */
  function OpenButtonPanel(b: Item): (p: Panel)
    ensures p.Generic? ==> p == Generic(b.title, b.description)
  {
    if Includes(b.title, "Endless") then Counter
    else if Includes(b.title, "Color") then ColorSwap
    else Generic(b.title, b.description)
  }

  /**
   * The panel is the counter exactly when "Endless" occurs in the title, the
   * colour panel exactly when "Color" does and "Endless" does not, and the
   * generic panel, carrying the item, otherwise. The last clause restates the
   * contract of `OpenButtonPanel` so that the whole dispatch is one lemma.
   */
  lemma DispatchSpec(b: Item)
    ensures OpenButtonPanel(b) == Counter <==> exists i :: OccursAt(b.title, "Endless", i)
    ensures OpenButtonPanel(b) == ColorSwap <==>
      (!exists i :: OccursAt(b.title, "Endless", i)) && exists i :: OccursAt(b.title, "Color", i)
    ensures OpenButtonPanel(b).Generic? <==>
      (!exists i :: OccursAt(b.title, "Endless", i)) && !exists i :: OccursAt(b.title, "Color", i)
    ensures OpenButtonPanel(b).Generic? ==> OpenButtonPanel(b) == Generic(b.title, b.description)
  {
    IncludesSpec(b.title, "Endless");
    IncludesSpec(b.title, "Color");
  }

  /** The sample Endless Button opens the counter. */
  lemma DispatchSampleEndless()
    ensures OpenButtonPanel(SampleButtons[0]) == Counter
  {
    var t := SampleButtons[0].title;
    assert OccursAt(t, "Endless", 0);
    IncludesSpec(t, "Endless");
  }

  /** The sample Random Color Button opens the colour panel. */
  lemma DispatchSampleColor()
    ensures OpenButtonPanel(SampleButtons[1]) == ColorSwap
  {
    assert SampleButtons[1].title == "Random Color Button";
    ColorTitleHasColor();
    ColorTitleLacksEndless();
  }

  lemma ColorTitleHasColor()
    ensures Includes("Random Color Button", "Color")
  {
    var t := "Random Color Button";
    assert t[7..12] == "Color";
    assert OccursAt(t, "Color", 7);
    IncludesSpec(t, "Color");
  }

  lemma ColorTitleLacksEndless()
    ensures !Includes("Random Color Button", "Endless")
  {
    var t := "Random Color Button";
    assert Lacks(t, 'E');
    MissingCharNotIncluded(t, "Endless", 'E');
  }

  /** "Endless" wins over "Color": a title containing both opens the counter. */
  lemma DispatchEndlessFirst(b: Item)
    requires exists i :: OccursAt(b.title, "Endless", i)
    requires exists i :: OccursAt(b.title, "Color", i)
    ensures OpenButtonPanel(b) == Counter
  {
    DispatchSpec(b);
  }

  /** Matching is case-sensitive: lower-case "endless" and "color" select neither special panel. */
  lemma DispatchCaseSensitive(description: string)
    ensures OpenButtonPanel(Item("endless color", description)) == Generic("endless color", description)
  {
    var t := "endless color";
    assert Lacks(t, 'E') && Lacks(t, 'C');
    MissingCharNotIncluded(t, "Endless", 'E');
    MissingCharNotIncluded(t, "Color", 'C');
  }

  // ===========================================================================
  // openCounterButton
  // ===========================================================================

  /** The two buttons of the counter panel. */
  datatype CounterClick = Increment | Reset

  /** The count after one click handler has run. */
  function CountAfter(count: int, click: CounterClick): (r: int)
    ensures count >= 0 ==> 0 <= r <= count + 1
  {
    match click
    case Increment => count + 1
    case Reset => 0
  }

  /** The count after a series of clicks, oldest first. */
  function CountAfterAll(count: int, clicks: seq<CounterClick>): int
    decreases |clicks|
  {
    if clicks == [] then count else CountAfterAll(CountAfter(count, clicks[0]), clicks[1..])
  }

  /** Starting from `count`, `n` increments give `count + n`. */
  lemma {:induction false} CountAfterIncrements(count: int, n: nat)
    ensures CountAfterAll(count, seq(n, _ => Increment)) == count + n
    decreases n
  {
    if n > 0 {
      var clicks := seq(n, _ => Increment);
      assert clicks[1..] == seq(n - 1, _ => Increment);
      CountAfterIncrements(count + 1, n - 1);
    }
  }

  /** A reset forgets everything before it. */
  lemma {:induction false} CountAfterReset(count: int, before: seq<CounterClick>, after: seq<CounterClick>)
    ensures CountAfterAll(count, before + [Reset] + after) == CountAfterAll(0, after)
    decreases |before|
  {
    if before == [] {
      assert before + [Reset] + after == [Reset] + after;
      assert ([Reset] + after)[1..] == after;
    } else {
      assert (before + [Reset] + after)[1..] == before[1..] + [Reset] + after;
      CountAfterReset(CountAfter(count, before[0]), before[1..], after);
    }
  }

  /** The count never goes negative and grows by at most one per click. */
  lemma {:induction false} CountAfterBounds(count: nat, clicks: seq<CounterClick>)
    ensures 0 <= CountAfterAll(count, clicks) <= count + |clicks|
    decreases |clicks|
  {
    if clicks != [] {
      CountAfterBounds(CountAfter(count, clicks[0]), clicks[1..]);
    }
  }

  /**
   * The counter panel: the private `count` of `openCounterButton` and the text of
   * its `#count` element, which each click handler rewrites after changing `count`.
   */
  class CounterPanel {
    var count: int
    var shown: string

    ghost predicate Valid()
      reads this
    {
      count >= 0 && shown == DecimalString(count)
    }

    /** Opening the panel: `count` is 0 and the markup shows "0". */
    constructor ()
      ensures Valid() && count == 0 && shown == "0"
    {
      count := 0;
      shown := "0";
    }

    /** The Clicks button: `count++`, then the new count is shown. */
    method ClickIncrement()
      requires Valid()
      modifies this
      ensures Valid()
      ensures count == CountAfter(old(count), Increment) == old(count) + 1
      ensures shown == DecimalString(count)
    {
      count := count + 1;
      shown := DecimalString(count);
    }

    /** The Reset button: `count = 0`, then 0 is shown. */
    method ClickReset()
      requires Valid()
      modifies this
      ensures Valid()
      ensures count == CountAfter(old(count), Reset) == 0
      ensures shown == "0"
    {
      count := 0;
      shown := DecimalString(count);
    }
  }

  /** What the panel shows is always its count, read back as a number. */
  lemma ShownIsCount(p: CounterPanel)
    requires p.Valid()
    ensures ParseDecimal(p.shown) == Some(p.count)
  {
    DecimalRoundTrip(p.count);
  }

  /** Open the counter, click Clicks three times, then Reset. */
  method CounterScenario() returns (afterThree: string, afterReset: string)
    ensures afterThree == "3" && afterReset == "0"
  {
    var p := new CounterPanel();
    p.ClickIncrement();
    p.ClickIncrement();
    p.ClickIncrement();
    afterThree := p.shown;
    p.ClickReset();
    afterReset := p.shown;
  }

  // ===========================================================================
  // randHexColor and openColorButton
  // ===========================================================================

  /** `Math.floor(Math.random() * 16777215)` is below this bound. */
  const ColorBound: nat := 16777215

  /** `randHexColor` once the random integer `n` has been drawn. */
  function RandHexColor(n: nat): (r: string)
    requires n < ColorBound
    ensures |r| == 7 && r[0] == '#'
  {
    PaddedHex(n);
    "#" + ToUpperCase(PadStart(ToRadixString(n, 16), 6, '0'))
  }

  predicate IsUpperHexDigit(c: char)
  {
    '0' <= c <= '9' || 'A' <= c <= 'F'
  }

  /** `#` followed by exactly six upper-case hexadecimal digits. */
  predicate IsHexColor(s: string)
  {
    |s| == 7 && s[0] == '#' && forall i :: 1 <= i < 7 ==> IsUpperHexDigit(s[i])
  }

  /** Reading a `#RRGGBB` string back as the number its six digits denote. */
  function ParseHexColor(s: string): Option<nat>
  {
    if IsHexColor(s) then Some(RadixValue(s[1..], 16)) else None
  }

  /** The zero-padded `toString(16)` of `n` is six hexadecimal digits that denote `n`. */
  lemma PaddedHex(n: nat)
    requires n < ColorBound
    ensures var p := PadStart(ToRadixString(n, 16), 6, '0');
      |p| == 6 && IsDigitString(p, 16) && RadixValue(p, 16) == n
  {
    var h := ToRadixString(n, 16);
    ToRadixStringValue(n, 16);
    ToRadixStringLength16(n, 6);
    var p := PadStart(h, 6, '0');
    var z := seq(6 - |h|, _ => '0');
    assert p == z + h;
    LeadingZeros(z, h, 16);
    forall i | 0 <= i < 6 ensures DigitValue(p[i]) < 16 {
      if i >= |z| { assert p[i] == h[i - |z|]; }
    }
  }

  /** Upper-casing a hexadecimal digit string keeps its value and leaves only upper-case digits. */
  lemma UpperHex(p: string)
    requires IsDigitString(p, 16)
    ensures var u := ToUpperCase(p);
      |u| == |p| && RadixValue(u, 16) == RadixValue(p, 16)
      && forall i :: 0 <= i < |u| ==> IsUpperHexDigit(u[i])
  {
    var u := ToUpperCase(p);
    forall i | 0 <= i < |u| ensures DigitValue(u[i]) == DigitValue(p[i]) && IsUpperHexDigit(u[i]) {
      assert u[i] == UpperChar(p[i]);
      assert DigitValue(p[i]) < 16;
    }
    SameDigitsSameValue(u, p, 16);
  }

  /**
   * The formatted colour is `#` followed by exactly six upper-case hexadecimal
   * digits, zero-padded, that denote `n`.
   */
  lemma HexColorWellFormed(n: nat)
    requires n < ColorBound
    ensures IsHexColor(RandHexColor(n))
    ensures ParseHexColor(RandHexColor(n)) == Some(n)
  {
    var p := PadStart(ToRadixString(n, 16), 6, '0');
    PaddedHex(n);
    var u := ToUpperCase(p);
    UpperHex(p);
    var r := RandHexColor(n);
    assert r == "#" + u;
    assert r[1..] == u;
    forall i | 1 <= i < 7 ensures IsUpperHexDigit(r[i]) {
      assert r[i] == u[i - 1];
    }
  }

  /** An upper-case hexadecimal digit is determined by its value. */
  lemma UpperDigitInjective(a: char, b: char)
    requires IsUpperHexDigit(a) && IsUpperHexDigit(b) && DigitValue(a) == DigitValue(b)
    ensures a == b
  {
  }

  /**
   * Every `#RRGGBB` string whose value is below 16777215 is produced, and by
   * exactly the integer it denotes.
   */
  lemma HexColorOnto(s: string)
    requires ParseHexColor(s).Some? && ParseHexColor(s).value < ColorBound
    ensures RandHexColor(ParseHexColor(s).value) == s
  {
    var n := ParseHexColor(s).value;
    HexColorWellFormed(n);
    var r := RandHexColor(n);
    assert IsDigitString(s[1..], 16) && IsDigitString(r[1..], 16);
    SameValueSameDigits16(r[1..], s[1..]);
    forall i | 0 <= i < 7 ensures r[i] == s[i] {
      if i > 0 {
        assert r[1..][i - 1] == r[i] && s[1..][i - 1] == s[i];
        UpperDigitInjective(r[i], s[i]);
      }
    }
  }

  /** `#FFFFFF` is never produced: its value is 16777215. */
  lemma HexColorNeverWhite(n: nat)
    requires n < ColorBound
    ensures RandHexColor(n) != "#FFFFFF"
  {
    HexColorWellFormed(n);
    var w := "#FFFFFF"[1..];
    AllFValue(w);
    assert Pow16(6) == 16777216;
  }

  /** The colour written unescaped into the colour panel's markup has nothing `escapeHtml` would rewrite. */
  lemma HexColorPlain(n: nat)
    requires n < ColorBound
    ensures forall i :: 0 <= i < |RandHexColor(n)| ==> !IsSpecial(RandHexColor(n)[i])
  {
    HexColorWellFormed(n);
  }

  /**
   * The colour panel: the text of `#hexValue` and the background of `#colorBox`,
   * both set to the same freshly formatted colour.
   */
  class ColorPanel {
    var hex: string
    var background: string

    ghost predicate Valid()
      reads this
    {
      IsHexColor(hex) && background == hex
    }

    /** `openColorButton` with the random integer `n` drawn for the initial colour. */
    constructor (n: nat)
      requires n < ColorBound
      ensures Valid() && hex == RandHexColor(n) && background == hex
    {
      HexColorWellFormed(n);
      hex := RandHexColor(n);
      background := hex;
    }

    /** The New Color button, with the random integer `n` drawn for it. */
    method NewColor(n: nat)
      requires Valid()
      requires n < ColorBound
      modifies this
      ensures Valid() && hex == RandHexColor(n) && background == hex
    {
      HexColorWellFormed(n);
      var color := RandHexColor(n);
      background := color;
      hex := color;
    }
  }

  // ===========================================================================
  // renderButtons and the Open click handler
  // ===========================================================================

  const EmptyMessage: string := "No matching buttons found."

  /** One catalog card: the escaped title and description, and its `data-index` text. */
  datatype Card = Card(titleHtml: string, descriptionHtml: string, dataIndex: string)

  /** The content of the catalog container. */
  datatype Rendered = Empty(message: string) | Cards(cards: seq<Card>)

  /** The card `renderButtons` writes for `b` at position `index` of the list it renders. */
  function CardFor(b: Item, index: nat): (c: Card)
    ensures |c.titleHtml| >= |b.title| && |c.descriptionHtml| >= |b.description| && c.dataIndex != []
  {
    Card(EscapeHtml(b.title), EscapeHtml(b.description), DecimalString(index))
  }

  /** `renderButtons(list)`: the empty-state message, or one card per item numbered by its position in `list`. */
  method RenderButtons(list: seq<Item>) returns (view: Rendered)
    ensures list == [] <==> view == Empty(EmptyMessage)
    ensures list != [] ==> view.Cards? && |view.cards| == |list|
    ensures view.Cards? ==> forall k :: 0 <= k < |view.cards| ==> view.cards[k] == CardFor(list[k], k)
  {
    if |list| == 0 {
      return Empty(EmptyMessage);
    }
    var cards: seq<Card> := [];
    for i := 0 to |list|
      invariant |cards| == i
      invariant forall k :: 0 <= k < i ==> cards[k] == CardFor(list[k], k)
    {
      cards := cards + [CardFor(list[i], i)];
    }
    view := Cards(cards);
  }

  /** The index written unescaped into a card's `data-index` has nothing `escapeHtml` would rewrite. */
  lemma DecimalStringPlain(i: nat)
    ensures forall k :: 0 <= k < |DecimalString(i)| ==> !IsSpecial(DecimalString(i)[k])
  {
    ToRadixStringValue(i, 10);
  }

  /** What a card shows is safe markup that reads back as the item's own title and description. */
  lemma CardForSafe(b: Item, index: nat)
    ensures IsEscaped(CardFor(b, index).titleHtml) && IsEscaped(CardFor(b, index).descriptionHtml)
    ensures Unescape(CardFor(b, index).titleHtml) == b.title
    ensures Unescape(CardFor(b, index).descriptionHtml) == b.description
  {
    EscapeHtmlSafe(b.title);
    EscapeHtmlSafe(b.description);
    EscapeHtmlRoundTrip(b.title);
    EscapeHtmlRoundTrip(b.description);
  }

  /** `buttonsList[Number(dataIndex)]`, `None` where the script finds no button and returns. */
  function LookupButton(buttons: seq<Item>, dataIndex: string): (r: Option<Item>)
    ensures r.Some? ==> r.value in buttons
  {
    match ParseDecimal(dataIndex)
    case Some(i) => if i < |buttons| then Some(buttons[i]) else None
    case None => None
  }

  /** The click handler on the catalog: the panel opened for an Open link, if any. */
  function OnOpenClick(buttons: seq<Item>, dataIndex: string): (r: Option<Panel>)
    ensures r.Some? <==> LookupButton(buttons, dataIndex).Some?
  {
    match LookupButton(buttons, dataIndex)
    case Some(b) => Some(OpenButtonPanel(b))
    case None => None
  }

  /** The link written for position `i` opens `buttons[i]` of the full list; past its end, nothing. */
  lemma OpenIndexSpec(buttons: seq<Item>, i: nat)
    ensures LookupButton(buttons, DecimalString(i)) == if i < |buttons| then Some(buttons[i]) else None
    ensures OnOpenClick(buttons, DecimalString(i)) ==
      if i < |buttons| then Some(OpenButtonPanel(buttons[i])) else None
  {
    DecimalRoundTrip(i);
  }

  /**
   * The search box handler, `renderButtons(filterButtons(query))`: card `k` shows
   * the `k`-th match but its link opens `buttons[k]` of the full catalog.
   */
  method OnSearchInput(buttons: seq<Item>, query: string) returns (view: Rendered)
    ensures var found := FilterButtons(buttons, query);
      (found == [] <==> view == Empty(EmptyMessage))
      && (found != [] ==> view.Cards?)
      && (view.Cards? ==>
            |view.cards| == |found|
            && forall k :: 0 <= k < |view.cards| ==>
                 view.cards[k] == CardFor(found[k], k)
                 && LookupButton(buttons, view.cards[k].dataIndex) == Some(buttons[k]))
  {
    var found := FilterButtons(buttons, query);
    view := RenderButtons(found);
    if view.Cards? {
      forall k | 0 <= k < |view.cards|
        ensures LookupButton(buttons, view.cards[k].dataIndex) == Some(buttons[k])
      {
        OpenIndexSpec(buttons, k);
      }
    }
  }

  /** The Random Color Button's title has nothing to escape. */
  lemma ColorTitlePlain()
    ensures EscapeHtml(SampleButtons[1].title) == "Random Color Button"
  {
    var t := SampleButtons[1].title;
    assert forall i :: 0 <= i < |t| ==> !IsSpecial(t[i]);
    EscapeHtmlPlain(t);
  }

  /**
   * With the sample catalog, searching "color" leaves one match, the Random
   * Color Button, so the search handler shows one card for it, numbered 0;
   * opening that card looks up position 0 of the full catalog and shows the
   * Endless Button's counter panel, although the item shown opens the colour panel.
   */
  method SearchColorOpensCounter() returns (view: Rendered, panel: Option<Panel>)
    ensures view.Cards? && |view.cards| == 1
    ensures view.cards[0].titleHtml == "Random Color Button"
    ensures panel == OnOpenClick(SampleButtons, view.cards[0].dataIndex) == Some(Counter)
    ensures OpenButtonPanel(SampleButtons[1]) == ColorSwap
  {
    FilterSampleColor();
    view := OnSearchInput(SampleButtons, "color");
    assert view.cards[0] == CardFor(SampleButtons[1], 0);
    ColorCardZero();
    DispatchSampleColor();
    panel := OnOpenClick(SampleButtons, view.cards[0].dataIndex);
  }

  /** The card written for the Random Color Button at position 0 opens the Endless Button's counter. */
  lemma ColorCardZero()
    ensures CardFor(SampleButtons[1], 0).titleHtml == "Random Color Button"
    ensures OnOpenClick(SampleButtons, CardFor(SampleButtons[1], 0).dataIndex) == Some(Counter)
  {
    ColorTitlePlain();
    OpenIndexSpec(SampleButtons, 0);
    DispatchSampleEndless();
  }

  /** The card shows `b` and its link opens `b` from the full catalog. */
  ghost predicate CardShows(buttons: seq<Item>, c: Card, b: Item)
  {
    c.titleHtml == EscapeHtml(b.title) && c.descriptionHtml == EscapeHtml(b.description)
    && LookupButton(buttons, c.dataIndex) == Some(b)
  }

  /** Card `k` shows `found[k]` and opens it, for every `k`. */
  ghost predicate ShowsAll(buttons: seq<Item>, cards: seq<Card>, found: seq<Item>)
  {
    |cards| == |found| && forall k :: 0 <= k < |cards| ==> CardShows(buttons, cards[k], found[k])
  }

  lemma ShowsAllAppend(buttons: seq<Item>, cards: seq<Card>, found: seq<Item>, c: Card, b: Item)
    requires ShowsAll(buttons, cards, found) && CardShows(buttons, c, b)
    ensures ShowsAll(buttons, cards + [c], found + [b])
  {
  }

  /** Filtering one more item of the catalog appends it exactly when it matches. */
  lemma FilterStep(buttons: seq<Item>, i: nat, query: string)
    requires i < |buttons|
    ensures FilterButtons(buttons[..i + 1], query)
      == FilterButtons(buttons[..i], query) + if Matches(buttons[i], query) then [buttons[i]] else []
  {
    assert buttons[..i + 1] == buttons[..i] + [buttons[i]];
    FilterConcat(buttons[..i], [buttons[i]], query);
    FilterSingle(buttons[i], query);
  }

  /**
   * The search handler with each card numbered by its item's position in the
   * full catalog: card `k` shows the `k`-th match and opens that same item.
   */
  method RenderSearchResults(buttons: seq<Item>, query: string) returns (view: Rendered)
    ensures var found := FilterButtons(buttons, query);
      (found == [] <==> view == Empty(EmptyMessage))
      && (found != [] ==> view.Cards?)
      && (view.Cards? ==>
            |view.cards| == |found|
            && forall k :: 0 <= k < |view.cards| ==> CardShows(buttons, view.cards[k], found[k]))
  {
    var cards: seq<Card> := [];
    for i := 0 to |buttons|
      invariant ShowsAll(buttons, cards, FilterButtons(buttons[..i], query))
    {
      FilterStep(buttons, i, query);
      if Matches(buttons[i], query) {
        OpenIndexSpec(buttons, i);
        ShowsAllAppend(buttons, cards, FilterButtons(buttons[..i], query), CardFor(buttons[i], i), buttons[i]);
        cards := cards + [CardFor(buttons[i], i)];
      }
    }
    assert buttons[..|buttons|] == buttons;
    view := if cards == [] then Empty(EmptyMessage) else Cards(cards);
  }

  /**
   * The same search with the corrected rendering: the one card shows the
   * Random Color Button and opening it shows the colour panel.
   */
  method SearchColorOpensColor() returns (view: Rendered, panel: Option<Panel>)
    ensures view.Cards? && |view.cards| == 1
    ensures view.cards[0].titleHtml == "Random Color Button"
    ensures panel == OnOpenClick(SampleButtons, view.cards[0].dataIndex) == Some(ColorSwap)
  {
    FilterSampleColor();
    view := RenderSearchResults(SampleButtons, "color");
    ColorTitlePlain();
    DispatchSampleColor();
    panel := OnOpenClick(SampleButtons, view.cards[0].dataIndex);
  }
}
