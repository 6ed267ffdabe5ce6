/**
 The pure logic of the web front end: splitting a catalogue title into its
 name and year, the live search filter over all titles, and the text and
 style of the match-count pill shown above the results.
 */
module SearchUi {
  import opened Seqs
  import opened Text

  /** True when `s` ends with the character `c` (`s.endswith(c)`). */
  predicate EndsWith(s: string, c: char) {
    |s| > 0 && s[|s| - 1] == c
  }

  /**
   `split_title_year`: a title that ends with ')' and contains '(' is cut at
   its last '('; the name is the text before it without surrounding
   whitespace, and the year is the text after it without its trailing ')'
   characters.  Any other title comes back whole, with an empty year.
   */
  function SplitTitleYear(full: string): (r: (string, string))
    ensures !(EndsWith(full, ')') && '(' in full) ==> r == (full, "")
    ensures EndsWith(full, ')') && '(' in full ==>
              && (|r.0| > 0 ==> !IsSpace(r.0[0]) && !IsSpace(r.0[|r.0| - 1]))
              && '(' !in r.1
              && !EndsWith(r.1, ')')
  {
    if EndsWith(full, ')') && '(' in full then
      var k := RFind(full, '(');
      (Strip(full[..k]), RStripChar(full[k + 1..], ')'))
    else
      (full, "")
  }

  /**
   The name of a split title is a slice of the text before the last '(',
   with only whitespace around it in that text.
   */
  lemma SplitNameIsBeforeLastParen(full: string)
    requires EndsWith(full, ')') && '(' in full
    ensures var k := RFind(full, '(');
            0 <= k < |full| &&
            exists i, j ::
              && 0 <= i <= j <= k && SplitTitleYear(full).0 == full[i..j]
              && (forall n :: 0 <= n < i ==> IsSpace(full[n]))
              && (forall n :: j <= n < k ==> IsSpace(full[n]))
  {
    var k := RFind(full, '(');
    assert SplitTitleYear(full).0 == Strip(full[..k]);
    StripOfPrefix(full, k);
  }

  /**
   The year of a split title is the text after the last '(' up to a
   trailing run of ')'.
   */
  lemma SplitYearIsAfterLastParen(full: string)
    requires EndsWith(full, ')') && '(' in full
    ensures var k := RFind(full, '(');
            var year := SplitTitleYear(full).1;
            && 0 <= k && k + 1 + |year| <= |full|
            && year == full[k + 1..k + 1 + |year|]
            && forall n :: k + 1 + |year| <= n < |full| ==> full[n] == ')'
  {
    var k := RFind(full, '(');
    assert SplitTitleYear(full).1 == RStripChar(full[k + 1..], ')');
    RStripCharOfSuffix(full, k + 1, ')');
  }

  /** The title as the catalogue writes it: name, a space, and the year in parentheses. */
  function JoinTitleYear(name: string, year: string): string {
    name + " (" + year + ")"
  }

  /** In a joined title whose year has no '(', the last '(' is the one opening the year. */
  lemma LastParenOfJoin(name: string, year: string)
    requires '(' !in year
    ensures RFind(JoinTitleYear(name, year), '(') == |name| + 1
  {
    var full := JoinTitleYear(name, year);
    var k := |name| + 1;
    assert full[k] == '(';
    assert full[k + 1..] == year + ")";
  }

  /** A joined title ends with ')' and splits at that '(' into the name plus a space and the year plus ')'. */
  lemma JoinParts(name: string, year: string)
    ensures var full := JoinTitleYear(name, year);
            && EndsWith(full, ')') && '(' in full
            && full[..|name| + 1] == name + " "
            && full[|name| + 2..] == year + ")"
  {
    var full := JoinTitleYear(name, year);
    assert full[|name| + 1] == '(';
  }

  /**
   Splitting undoes joining: a name without surrounding whitespace and a
   year without '(' and not ending in ')' come back unchanged, so
   "Toy Story (1995)" splits into "Toy Story" and "1995".
   */
  lemma SplitJoinRoundTrip(name: string, year: string)
    requires |name| > 0 ==> !IsSpace(name[0]) && !IsSpace(name[|name| - 1])
    requires '(' !in year && !EndsWith(year, ')')
    ensures SplitTitleYear(JoinTitleYear(name, year)) == (name, year)
  {
    LastParenOfJoin(name, year);
    JoinParts(name, year);
    StripTrailingSpace(name, ' ');
    RStripCharAppend(year, ')');
  }

  /** `query.strip().lower()`: the query the filter compares against. */
  function NormalizeQuery(query: string): (q: string)
    ensures |q| > 0 ==> !IsSpace(q[0]) && !IsSpace(q[|q| - 1])
    ensures forall i :: 0 <= i < |q| ==> !('A' <= q[i] <= 'Z')
  {
    Lower(Strip(query))
  }

  /** The title matches the normalised query case-insensitively. */
  predicate Matches(q: string, title: string) {
    Contains(Lower(title), q)
  }

  /**
   The live filter on an already normalised query: with an empty query,
   every title; otherwise the titles whose lower-cased text contains it, in
   catalogue order and with their repetitions.
   */
  function FilterTitles(q: string, titles: seq<string>): (r: seq<string>)
    ensures IsSubsequence(r, titles)
    ensures forall t :: multiset(r)[t] == if Matches(q, t) then multiset(titles)[t] else 0
  {
    if q == "" then
      assert forall t :: Matches(q, t) by {
        forall t ensures Matches(q, t) {
          ContainsEmpty(Lower(t));
        }
      }
      assert IsSubsequence(titles, titles) by {
        SubsequenceReflexive(titles);
      }
      titles
    else
      Filter(titles, (t: string) => Matches(q, t))
  }

  /** The search box: normalise what was typed, then filter the titles by it. */
  function SearchFilter(query: string, titles: seq<string>): seq<string>
  {
    FilterTitles(NormalizeQuery(query), titles)
  }

  /**
   A title is listed exactly when it is in the catalogue and the normalised
   query occurs somewhere in its lower-cased text.
   */
  lemma SearchFindsSubstrings(query: string, titles: seq<string>, t: string)
    ensures t in SearchFilter(query, titles) <==>
              t in titles && exists i :: OccursAt(NormalizeQuery(query), Lower(t), i)
  {
    var r := SearchFilter(query, titles);
    assert t in r <==> multiset(r)[t] > 0;
    assert t in titles <==> multiset(titles)[t] > 0;
    ContainsIsSubstring(Lower(t), NormalizeQuery(query));
  }

  /** An empty or all-whitespace query lists every title, unchanged. */
  lemma BlankQueryListsAll(query: string, titles: seq<string>)
    requires forall i :: 0 <= i < |query| ==> IsSpace(query[i])
    ensures SearchFilter(query, titles) == titles
  {
  }

  /** Typing the query in upper or lower case makes no difference. */
  lemma SearchIgnoresCase(query: string, titles: seq<string>)
    ensures SearchFilter(Lower(query), titles) == SearchFilter(query, titles)
  {
    StripLower(query);
    LowerIdempotent(Strip(query));
    assert NormalizeQuery(Lower(query)) == NormalizeQuery(query);
  }

  /** Whitespace typed before or after the query makes no difference. */
  lemma SearchIgnoresSurroundingSpace(pre: string, query: string, post: string, titles: seq<string>)
    requires forall k :: 0 <= k < |pre| ==> IsSpace(pre[k])
    requires forall k :: 0 <= k < |post| ==> IsSpace(post[k])
    ensures SearchFilter(pre + query + post, titles) == SearchFilter(query, titles)
  {
    StripSurroundingSpace(pre, query, post);
  }

  datatype Option<T> = None | Some(value: T)

  /** The match-count pill: its CSS class and its text. */
  datatype Pill = Pill(cssClass: string, text: string)

  /** The pill's text for a number of matches. */
  function PillText(count: nat): (s: string)
    ensures count == 0 <==> s == "No matches"
    ensures count > 0 ==> s == Decimal(count) + (if count == 1 then " match found" else " matches found")
  {
    if count > 0 then
      Decimal(count) + " match" + (if count != 1 then "es" else "") + " found"
    else
      "No matches"
  }

  /** The three wordings: none, singular, plural. */
  lemma PillTextExamples()
    ensures PillText(0) == "No matches"
    ensures PillText(1) == "1 match found"
    ensures PillText(2) == "2 matches found"
  {
    assert Decimal(1) == "1";
    assert Decimal(2) == "2";
    assert PillText(1) == "1" + " match found";
    assert PillText(2) == "2" + " matches found";
  }

  /** A two-digit count is written out in full. */
  lemma PillTextTwoDigits()
    ensures PillText(12) == "12 matches found"
  {
    assert Decimal(12) == "12";
    assert PillText(12) == "12" + " matches found";
  }

  /** In a count's digits followed by a space, the digits run exactly up to the space. */
  lemma DigitsUpToSpace(a: nat, x: string)
    requires |x| > 0 && x[0] == ' '
    ensures var s := Decimal(a) + x;
            && (forall k :: 0 <= k < |Decimal(a)| ==> IsDigit(s[k]))
            && !IsDigit(s[|Decimal(a)|])
  {
  }

  /** Two digit strings followed by text starting with a space are equal when the whole strings are. */
  lemma DecimalPrefix(a: nat, b: nat, x: string, y: string)
    requires |x| > 0 && x[0] == ' ' && |y| > 0 && y[0] == ' '
    requires Decimal(a) + x == Decimal(b) + y
    ensures a == b
  {
    var da, db := Decimal(a), Decimal(b);
    DigitsUpToSpace(a, x);
    DigitsUpToSpace(b, y);
    assert |da| == |db|;
    assert da == (da + x)[..|da|];
    assert db == (db + y)[..|db|];
    DecimalInjective(a, b);
  }

  /** Different match counts give different pill texts, so the pill always tells the count. */
  lemma PillTextInjective(a: nat, b: nat)
    requires PillText(a) == PillText(b)
    ensures a == b
  {
    if a > 0 && b > 0 {
      var sa := if a == 1 then " match found" else " matches found";
      var sb := if b == 1 then " match found" else " matches found";
      DecimalPrefix(a, b, sa, sb);
    }
  }

  /**
   The pill above the results: shown only once the normalised query is not
   empty, with the count of listed titles, and styled "no-match" exactly
   when nothing is listed.
   */
  function MatchPill(query: string, titles: seq<string>): (p: Option<Pill>)
    ensures p.None? <==> NormalizeQuery(query) == ""
    ensures p.Some? ==> p.value.text == PillText(|SearchFilter(query, titles)|)
  {
    var count := |SearchFilter(query, titles)|;
    if NormalizeQuery(query) != "" then
      Some(Pill(if count > 0 then "match-pill" else "match-pill no-match", PillText(count)))
    else
      None
  }

  /**
   The pill warns "No matches" in the "no-match" style exactly when the user
   typed something and no catalogue title contains it.
   */
  lemma NoMatchPillMeansNoTitle(query: string, titles: seq<string>)
    ensures var p := MatchPill(query, titles);
            (p.Some? && p.value.cssClass == "match-pill no-match" && p.value.text == "No matches") <==>
            (NormalizeQuery(query) != "" && forall t :: t in titles ==> !Matches(NormalizeQuery(query), t))
  {
    var r := SearchFilter(query, titles);
    if forall t :: t in titles ==> !Matches(NormalizeQuery(query), t) {
      if |r| > 0 {
        assert multiset(r)[r[0]] > 0;
      }
    } else {
      var t :| t in titles && Matches(NormalizeQuery(query), t);
      assert multiset(r)[t] > 0;
    }
  }
}
