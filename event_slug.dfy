/** `generateSlug` of database/event.model.ts: the title lower-cased, trimmed,
    every run of characters outside `[a-z0-9]` replaced by one hyphen, hyphens
    stripped from both ends and doubled hyphens collapsed. The pipeline is
    modelled stage by stage; `Words` and `JoinHyphen` give an independent
    description of the result, and the lemmas connect the two. */
module EventSlug {
  import opened JsText

  /** `[a-z0-9]`: the characters a slug keeps. */
  predicate IsSlugAlnum(c: char) {
    'a' <= c <= 'z' || IsDigit(c)
  }

  predicate AllSlugAlnum(s: string) {
    forall k :: 0 <= k < |s| ==> IsSlugAlnum(s[k])
  }

  predicate NoSlugAlnum(s: string) {
    forall k :: 0 <= k < |s| ==> !IsSlugAlnum(s[k])
  }

  /** No two hyphens side by side. */
  predicate NoDoubleHyphen(s: string) {
    forall k :: 0 <= k < |s| - 1 ==> !(s[k] == '-' && s[k + 1] == '-')
  }

  /** A well-formed slug: only `a`–`z`, `0`–`9` and `-`, no hyphen at either end, never two in a row. */
  predicate IsSlug(s: string) {
    (forall k :: 0 <= k < |s| ==> IsSlugAlnum(s[k]) || s[k] == '-')
    && (s != [] ==> s[0] != '-' && s[|s| - 1] != '-')
    && NoDoubleHyphen(s)
  }

  // ---------------------------------------------------------------- the pipeline

  /** Drops the leading run of characters outside `[a-z0-9]`. */
  function SkipNonAlnum(s: string): (r: string)
    ensures |r| <= |s| && r == s[|s| - |r|..]
    ensures r == [] || IsSlugAlnum(r[0])
    ensures s != [] && !IsSlugAlnum(s[0]) ==> |r| < |s|
  {
    if s != [] && !IsSlugAlnum(s[0]) then SkipNonAlnum(s[1..]) else s
  }

  /** `.replace(/[^a-z0-9]+/g, '-')`: each maximal run outside `[a-z0-9]` becomes one hyphen. */
  function ReplaceNonAlnumRuns(s: string): string
    decreases |s|
  {
    if s == [] then []
    else if IsSlugAlnum(s[0]) then [s[0]] + ReplaceNonAlnumRuns(s[1..])
    else "-" + ReplaceNonAlnumRuns(SkipNonAlnum(s))
  }

  function TrimHyphensStart(s: string): string {
    if s != [] && s[0] == '-' then TrimHyphensStart(s[1..]) else s
  }

  function TrimHyphensEnd(s: string): string {
    if s != [] && s[|s| - 1] == '-' then TrimHyphensEnd(s[..|s| - 1]) else s
  }

  /** `.replace(/^-+|-+$/g, '')`: the leading and the trailing run of hyphens removed. */
  function StripHyphens(s: string): string {
    TrimHyphensEnd(TrimHyphensStart(s))
  }

  /** Drops the leading run of hyphens. */
  function SkipHyphens(s: string): (r: string)
    ensures |r| <= |s|
    ensures s != [] && s[0] == '-' ==> |r| < |s|
  {
    if s != [] && s[0] == '-' then SkipHyphens(s[1..]) else s
  }

  /** `.replace(/-{2,}/g, '-')`: each run of hyphens becomes a single hyphen. */
  function CollapseHyphens(s: string): string
    decreases |s|
  {
    if s == [] then []
    else if s[0] == '-' then "-" + CollapseHyphens(SkipHyphens(s))
    else [s[0]] + CollapseHyphens(s[1..])
  }

  /** `generateSlug(title)`. */
  function GenerateSlug(title: string): string {
    CollapseHyphens(StripHyphens(ReplaceNonAlnumRuns(Trim(ToLower(title)))))
  }

  // ---------------------------------------------------------------- reference description

  /** The maximal run of `[a-z0-9]` at the start of `s`. */
  function LeadingAlnum(s: string): (w: string)
    ensures |w| <= |s| && w == s[..|w|] && AllSlugAlnum(w)
    ensures |w| < |s| ==> !IsSlugAlnum(s[|w|])
    ensures s != [] && IsSlugAlnum(s[0]) ==> w != []
  {
    if s != [] && IsSlugAlnum(s[0]) then [s[0]] + LeadingAlnum(s[1..]) else []
  }

  /** The maximal runs of `[a-z0-9]` in `s`, in order. */
  function Words(s: string): (ws: seq<string>)
    decreases |s|
  {
    if s == [] then []
    else if !IsSlugAlnum(s[0]) then Words(s[1..])
    else
      var w := LeadingAlnum(s);
      [w] + Words(s[|w|..])
  }

  /** The words written out with one hyphen between neighbours. */
  function JoinHyphen(ws: seq<string>): string {
    if ws == [] then []
    else if |ws| == 1 then ws[0]
    else ws[0] + "-" + JoinHyphen(ws[1..])
  }

  /** The characters of `s` in `[a-z0-9]`, in order. */
  function KeepAlnum(s: string): string {
    if s == [] then []
    else (if IsSlugAlnum(s[0]) then [s[0]] else []) + KeepAlnum(s[1..])
  }

  function Concat(ws: seq<string>): string {
    if ws == [] then [] else ws[0] + Concat(ws[1..])
  }

  predicate AllWords(ws: seq<string>) {
    forall i :: 0 <= i < |ws| ==> ws[i] != [] && AllSlugAlnum(ws[i])
  }

  // ---------------------------------------------------------------- joined words

  /** Every word is a non-empty run of `[a-z0-9]`. */
  lemma {:induction false} WordsAreWords(s: string)
    ensures AllWords(Words(s))
    decreases |s|
  {
    if s != [] {
      if !IsSlugAlnum(s[0]) {
        WordsAreWords(s[1..]);
      } else {
        WordsAreWords(s[|LeadingAlnum(s)|..]);
      }
    }
  }

  /** Non-empty alphanumeric words joined by hyphens form a well-formed slug. */
  lemma {:induction false} JoinHyphenIsSlug(ws: seq<string>)
    requires AllWords(ws)
    ensures IsSlug(JoinHyphen(ws))
    ensures JoinHyphen(ws) == [] <==> ws == []
  {
    if |ws| > 1 {
      JoinHyphenIsSlug(ws[1..]);
      var w, t := ws[0], JoinHyphen(ws[1..]);
      var j := w + "-" + t;
      assert j == JoinHyphen(ws);
      forall k | 0 <= k < |j| ensures IsSlugAlnum(j[k]) || j[k] == '-' {
        if k > |w| { assert j[k] == t[k - |w| - 1]; }
      }
      forall k | 0 <= k < |j| - 1 ensures !(j[k] == '-' && j[k + 1] == '-') {
        if k > |w| { assert j[k] == t[k - |w| - 1] && j[k + 1] == t[k - |w|]; }
      }
    }
  }

  /** Splitting a hyphen-joined list of words gives the words back. */
  lemma {:induction false} WordsOfJoinHyphen(ws: seq<string>)
    requires AllWords(ws)
    ensures Words(JoinHyphen(ws)) == ws
  {
    if |ws| == 1 {
      WordsOfAlnum(ws[0]);
    } else if |ws| > 1 {
      var w, t := ws[0], JoinHyphen(ws[1..]);
      var j := w + "-" + t;
      assert j == w + ("-" + t);
      LeadingAlnumOfWord(w, "-" + t);
      assert j[|w|..] == "-" + t;
      assert Words(j) == [w] + Words("-" + t);
      assert ("-" + t)[1..] == t;
      WordsOfJoinHyphen(ws[1..]);
    }
  }

  lemma {:induction false} LeadingAlnumOfWord(w: string, x: string)
    requires AllSlugAlnum(w)
    requires x == [] || !IsSlugAlnum(x[0])
    ensures LeadingAlnum(w + x) == w
  {
    if w != [] {
      assert (w + x)[1..] == w[1..] + x;
      LeadingAlnumOfWord(w[1..], x);
    } else {
      assert w + x == x;
    }
  }

  lemma WordsOfAlnum(w: string)
    requires w != [] && AllSlugAlnum(w)
    ensures Words(w) == [w]
  {
    LeadingAlnumOfWord(w, []);
    assert w + [] == w;
  }

  // ---------------------------------------------------------------- words ignore what surrounds them

  lemma {:induction false} WordsSkipPrefix(a: string, x: string)
    requires NoSlugAlnum(a)
    ensures Words(a + x) == Words(x)
  {
    if a != [] {
      assert (a + x)[0] == a[0] && (a + x)[1..] == a[1..] + x;
      WordsSkipPrefix(a[1..], x);
    } else {
      assert a + x == x;
    }
  }

  lemma {:induction false} WordsDropSuffix(x: string, b: string)
    requires NoSlugAlnum(b)
    ensures Words(x + b) == Words(x)
    decreases |x|
  {
    if x == [] {
      assert x + b == b;
      WordsSkipPrefix(b, []);
      assert b + [] == b;
    } else if !IsSlugAlnum(x[0]) {
      assert (x + b)[0] == x[0] && (x + b)[1..] == x[1..] + b;
      WordsDropSuffix(x[1..], b);
    } else {
      var w := LeadingAlnum(x);
      var rest := x[|w|..];
      assert x == w + rest;
      assert x + b == w + (rest + b);
      if rest != [] {
        LeadingAlnumOfWord(w, rest + b);
        LeadingAlnumOfWord(w, rest);
      } else if b != [] {
        LeadingAlnumOfWord(w, b);
        LeadingAlnumOfWord(w, []);
        assert w + [] == w;
      } else {
        assert x + b == x;
      }
      assert LeadingAlnum(x + b) == w;
      assert (x + b)[|w|..] == rest + b;
      WordsDropSuffix(rest, b);
    }
  }

  lemma {:induction false} WordsOfTrimStart(s: string)
    ensures Words(TrimStart(s)) == Words(s)
  {
    if s != [] && IsWhitespace(s[0]) {
      assert !IsSlugAlnum(s[0]);
      WordsOfTrimStart(s[1..]);
    }
  }

  lemma {:induction false} WordsOfTrimEnd(s: string)
    ensures Words(TrimEnd(s)) == Words(s)
    decreases |s|
  {
    if s != [] && IsWhitespace(s[|s| - 1]) {
      var init := s[..|s| - 1];
      assert s == init + [s[|s| - 1]];
      assert NoSlugAlnum([s[|s| - 1]]);
      WordsDropSuffix(init, [s[|s| - 1]]);
      WordsOfTrimEnd(init);
    }
  }

  /** Trimming does not change the words. */
  lemma {:induction false} WordsOfTrim(s: string)
    ensures Words(Trim(s)) == Words(s)
  {
    WordsOfTrimStart(s);
    WordsOfTrimEnd(TrimStart(s));
  }

  // ---------------------------------------------------------------- the pipeline, stage by stage

  lemma {:induction false} WordsSkipNonAlnum(s: string)
    ensures Words(SkipNonAlnum(s)) == Words(s)
  {
    if s != [] && !IsSlugAlnum(s[0]) {
      WordsSkipNonAlnum(s[1..]);
    }
  }

  /** The replacement copies a leading word unchanged. */
  lemma {:induction false} ReplaceCopiesWord(s: string)
    requires s != [] && IsSlugAlnum(s[0])
    ensures var w := LeadingAlnum(s);
      ReplaceNonAlnumRuns(s) == w + ReplaceNonAlnumRuns(s[|w|..])
  {
    var w := LeadingAlnum(s);
    var t := s[1..];
    assert ReplaceNonAlnumRuns(s) == [s[0]] + ReplaceNonAlnumRuns(t);
    var w' := LeadingAlnum(t);
    assert w == [s[0]] + w';
    SliceOfTail(s, |w'|);
    if t != [] && IsSlugAlnum(t[0]) {
      ReplaceCopiesWord(t);
      ConcatAssoc([s[0]], w', ReplaceNonAlnumRuns(s[|w|..]));
    } else {
      assert w' == [];
      EmptyConcat([s[0]], ReplaceNonAlnumRuns(t));
    }
  }

  lemma SliceOfTail(s: string, n: nat)
    requires n < |s|
    ensures s[1..][n..] == s[n + 1..]
  {
  }

  /** A hyphen when `s` starts outside `[a-z0-9]`. */
  function LeadHyphen(s: string): string {
    if s != [] && !IsSlugAlnum(s[0]) then "-" else ""
  }

  /** A hyphen when `s` has a word and ends outside `[a-z0-9]`. */
  function TrailHyphen(s: string): string {
    if s != [] && !IsSlugAlnum(s[|s| - 1]) && Words(s) != [] then "-" else ""
  }

  /** After the replacement the text is its words joined by hyphens,
      with one extra hyphen at an end that was not alphanumeric. */
  ghost predicate ReplacedShape(s: string) {
    ReplaceNonAlnumRuns(s) == LeadHyphen(s) + JoinHyphen(Words(s)) + TrailHyphen(s)
  }

  lemma {:induction false} ReplaceNonAlnumRunsShape(s: string)
    ensures ReplacedShape(s)
    decreases |s|
  {
    if s == [] {
    } else if !IsSlugAlnum(s[0]) {
      var u := SkipNonAlnum(s);
      if u != [] { ReplaceNonAlnumRunsShape(u); }
      ShapeAfterSeparator(s);
    } else {
      var rest := s[|LeadingAlnum(s)|..];
      if rest != [] { ReplaceNonAlnumRunsShape(rest); }
      ShapeAfterWord(s);
    }
  }

  lemma ShapeAfterSeparator(s: string)
    requires s != [] && !IsSlugAlnum(s[0])
    requires SkipNonAlnum(s) != [] ==> ReplacedShape(SkipNonAlnum(s))
    ensures ReplacedShape(s)
  {
    var u := SkipNonAlnum(s);
    assert ReplaceNonAlnumRuns(s) == "-" + ReplaceNonAlnumRuns(u);
    WordsSkipNonAlnum(s);
    if u == [] {
      assert Words(s) == [];
      assert TrailHyphen(s) == "";
      assert ReplaceNonAlnumRuns(u) == [];
      EmptyConcat("-", []);
      assert LeadHyphen(s) == "-";
    } else {
      assert LeadHyphen(u) == "";
      TrailOfSuffix(s, u);
      var j, tr := JoinHyphen(Words(s)), TrailHyphen(s);
      assert ReplacedShape(u);
      assert ReplaceNonAlnumRuns(u) == "" + j + tr;
      EmptyConcat(j, tr);
      assert ReplaceNonAlnumRuns(s) == "-" + (j + tr);
      ConcatAssoc("-", j, tr);
      assert LeadHyphen(s) == "-";
    }
  }

  lemma TrailOfSuffix(s: string, u: string)
    requires u != [] && |u| <= |s| && u == s[|s| - |u|..]
    requires (Words(u) == []) == (Words(s) == [])
    ensures TrailHyphen(u) == TrailHyphen(s)
  {
    assert u[|u| - 1] == s[|s| - 1];
  }

  lemma TrailAfterLastWord(s: string, u: string)
    requires u != [] && |u| <= |s| && u == s[|s| - |u|..]
    requires Words(u) == [] && Words(s) != []
    ensures TrailHyphen(s) == "-"
  {
    WordlessHasNoAlnum(u);
    assert u[|u| - 1] == s[|s| - 1];
  }

  lemma ShapeAfterWord(s: string)
    requires s != [] && IsSlugAlnum(s[0])
    requires var rest := s[|LeadingAlnum(s)|..]; rest != [] ==> ReplacedShape(rest)
    ensures ReplacedShape(s)
  {
    var w := LeadingAlnum(s);
    var rest := s[|w|..];
    ReplaceCopiesWord(s);
    assert ReplaceNonAlnumRuns(s) == w + ReplaceNonAlnumRuns(rest);
    assert Words(s) == [w] + Words(rest);
    assert LeadHyphen(s) == "";
    if rest == [] {
      assert w == s;
      assert TrailHyphen(s) == "";
      assert JoinHyphen(Words(s)) == w;
      EmptyConcat(w, []);
    } else {
      assert LeadHyphen(rest) == "-";
      var j, tr := JoinHyphen(Words(rest)), TrailHyphen(rest);
      if Words(rest) == [] {
        EmptyConcat("-", []);
        assert ReplaceNonAlnumRuns(rest) == "-";
        assert JoinHyphen(Words(s)) == w;
        TrailAfterLastWord(s, rest);
        EmptyConcat(w, "-");
      } else {
        TrailOfSuffix(s, rest);
        assert JoinHyphen(Words(s)) == w + "-" + j;
        ConcatAssoc(w, "-" + j, tr);
        ConcatAssoc("-", j, tr);
        ConcatAssoc(w, "-", j);
        EmptyConcat(w + "-" + j, tr);
      }
    }
  }

  lemma {:induction false} WordlessHasNoAlnum(s: string)
    requires Words(s) == []
    ensures NoSlugAlnum(s)
  {
    if s != [] {
      WordlessHasNoAlnum(s[1..]);
      assert forall k :: 1 <= k < |s| ==> s[k] == s[1..][k - 1];
    }
  }

  lemma EmptyConcat(a: string, b: string)
    ensures "" + a + b == a + b && a + "" + b == a + b && a + b + "" == a + b
  {
  }

  lemma ConcatAssoc(a: string, b: string, c: string)
    ensures a + (b + c) == a + b + c
  {
  }

  lemma {:induction false} TrimHyphensEndOfSlug(j: string)
    requires j == [] || j[|j| - 1] != '-'
    ensures TrimHyphensEnd(j) == j && TrimHyphensEnd(j + "-") == j
  {
    assert (j + "-")[..|j|] == j;
  }

  /** Stripping hyphens undoes the extra hyphens the replacement adds at either end. */
  lemma {:induction false} StripAroundSlug(lead: string, j: string, trail: string)
    requires lead == "" || lead == "-"
    requires trail == "" || trail == "-"
    requires IsSlug(j)
    ensures StripHyphens(lead + j + trail) == j
  {
    var x := j + trail;
    assert lead + j + trail == lead + x;
    if lead == "-" {
      assert (lead + x)[1..] == x;
    } else {
      assert lead + x == x;
    }
    assert TrimHyphensStart(lead + x) == TrimHyphensStart(x);
    if j == [] {
      assert x == trail;
      assert trail == "-" ==> trail[1..] == [];
      assert TrimHyphensStart(trail) == [];
    } else {
      assert x[0] == j[0];
      if trail == "" { assert x == j; }
      TrimHyphensEndOfSlug(j);
    }
  }

  /** Collapsing changes nothing in a text without doubled hyphens. */
  lemma {:induction false} CollapseWithoutDoubles(s: string)
    requires NoDoubleHyphen(s)
    ensures CollapseHyphens(s) == s
  {
    if s != [] {
      assert NoDoubleHyphen(s[1..]) by {
        forall k | 0 <= k < |s[1..]| - 1 ensures !(s[1..][k] == '-' && s[1..][k + 1] == '-') {
          assert s[1..][k] == s[k + 1] && s[1..][k + 1] == s[k + 2];
        }
      }
      CollapseWithoutDoubles(s[1..]);
      if s[0] == '-' {
        assert SkipHyphens(s[1..]) == s[1..];
        assert [s[0]] + s[1..] == s;
      }
    }
  }

  // ---------------------------------------------------------------- properties of generateSlug

  /** The slug is the title's lower-cased alphanumeric words joined by single hyphens. */
  lemma GenerateSlugJoinsWords(title: string)
    ensures GenerateSlug(title) == JoinHyphen(Words(ToLower(title)))
  {
    var t := Trim(ToLower(title));
    var j := JoinHyphen(Words(t));
    ReplaceNonAlnumRunsShape(t);
    WordsAreWords(t);
    JoinHyphenIsSlug(Words(t));
    StripAroundSlug(LeadHyphen(t), j, TrailHyphen(t));
    CollapseWithoutDoubles(j);
    WordsOfTrim(ToLower(title));
  }

  /** Every slug holds only `a`–`z`, `0`–`9` and `-`, starts and ends with neither hyphen, and never doubles one. */
  lemma GenerateSlugIsSlug(title: string)
    ensures IsSlug(GenerateSlug(title))
  {
    GenerateSlugJoinsWords(title);
    WordsAreWords(ToLower(title));
    JoinHyphenIsSlug(Words(ToLower(title)));
  }

  lemma {:induction false} KeepAlnumAppend(a: string, b: string)
    ensures KeepAlnum(a + b) == KeepAlnum(a) + KeepAlnum(b)
  {
    if a != [] {
      assert (a + b)[0] == a[0] && (a + b)[1..] == a[1..] + b;
      KeepAlnumAppend(a[1..], b);
    } else {
      assert a + b == b;
    }
  }

  lemma {:induction false} KeepAlnumOfWord(w: string)
    requires AllSlugAlnum(w)
    ensures KeepAlnum(w) == w
  {
    if w != [] { KeepAlnumOfWord(w[1..]); }
  }

  lemma {:induction false} KeepAlnumOfJoin(ws: seq<string>)
    requires AllWords(ws)
    ensures KeepAlnum(JoinHyphen(ws)) == Concat(ws)
  {
    if |ws| == 1 {
      KeepAlnumOfWord(ws[0]);
      assert Concat(ws) == ws[0] + [];
    } else if |ws| > 1 {
      KeepAlnumAppend(ws[0] + "-", JoinHyphen(ws[1..]));
      KeepAlnumAppend(ws[0], "-");
      KeepAlnumOfWord(ws[0]);
      KeepAlnumOfJoin(ws[1..]);
    }
  }

  lemma {:induction false} ConcatOfWords(s: string)
    ensures Concat(Words(s)) == KeepAlnum(s)
    decreases |s|
  {
    if s != [] {
      if !IsSlugAlnum(s[0]) {
        ConcatOfWords(s[1..]);
      } else {
        var w := LeadingAlnum(s);
        assert s == w + s[|w|..];
        KeepAlnumAppend(w, s[|w|..]);
        KeepAlnumOfWord(w);
        ConcatOfWords(s[|w|..]);
      }
    }
  }

  /** The slug keeps exactly the alphanumerics of the lower-cased title, in order. */
  lemma GenerateSlugKeepsAlnums(title: string)
    ensures KeepAlnum(GenerateSlug(title)) == KeepAlnum(ToLower(title))
  {
    GenerateSlugJoinsWords(title);
    WordsAreWords(ToLower(title));
    KeepAlnumOfJoin(Words(ToLower(title)));
    ConcatOfWords(ToLower(title));
  }

  /** Hyphen-joined words are their own slug. */
  lemma SlugOfJoinedWords(ws: seq<string>)
    requires AllWords(ws)
    ensures GenerateSlug(JoinHyphen(ws)) == JoinHyphen(ws)
  {
    var j := JoinHyphen(ws);
    JoinHyphenIsSlug(ws);
    ToLowerOfLower(j);
    WordsOfJoinHyphen(ws);
    GenerateSlugJoinsWords(j);
  }

  /** A slug is its own slug. */
  lemma GenerateSlugIdempotent(title: string)
    ensures GenerateSlug(GenerateSlug(title)) == GenerateSlug(title)
  {
    var ws := Words(ToLower(title));
    GenerateSlugJoinsWords(title);
    WordsAreWords(ToLower(title));
    SlugOfJoinedWords(ws);
  }

  /** A word followed by a separator is the first word. */
  lemma WordsStep(w: string, sep: string, rest: string)
    requires w != [] && AllSlugAlnum(w) && NoSlugAlnum(sep)
    requires sep != [] || rest == []
    ensures Words(w + sep + rest) == [w] + Words(rest)
  {
    var s := w + sep + rest;
    assert s == w + (sep + rest);
    LeadingAlnumOfWord(w, sep + rest);
    assert s[|w|..] == sep + rest;
    WordsSkipPrefix(sep, rest);
  }

  /** A title without letters or digits gives the empty slug. */
  lemma GenerateSlugOfPunctuation(title: string)
    requires NoSlugAlnum(ToLower(title))
    ensures GenerateSlug(title) == ""
  {
    WordsSkipPrefix(ToLower(title), "");
    assert ToLower(title) + "" == ToLower(title);
    GenerateSlugJoinsWords(title);
  }

  // ---------------------------------------------------------------- an example

  /** `"My Cool Talk!!"` gives `"my-cool-talk"`. */
  lemma MyCoolTalk(title: string)
    requires title == "My Cool Talk!!"
    ensures GenerateSlug(title) == "my-cool-talk"
  {
    assert "my" + "-" + ("cool" + "-" + "talk") == "my-cool-talk";
    LowerMyCoolTalk(title);
    WordsOfMyCoolTalk();
    assert JoinHyphen(["my", "cool", "talk"]) == "my" + "-" + JoinHyphen(["cool", "talk"]);
    GenerateSlugJoinsWords(title);
  }

  lemma LowerMyCoolTalk(title: string)
    requires title == "My Cool Talk!!"
    ensures ToLower(title) == "my" + " " + ("cool" + " " + ("talk" + "!!" + ""))
  {
    var l := "my" + " " + ("cool" + " " + ("talk" + "!!" + ""));
    assert l == "my cool talk!!";
    assert forall k :: 0 <= k < |title| ==> ToLower(title)[k] == l[k];
  }

  lemma WordsOfMyCoolTalk()
    ensures Words("my" + " " + ("cool" + " " + ("talk" + "!!" + ""))) == ["my", "cool", "talk"]
  {
    WordsStep("talk", "!!", "");
    WordsStep("cool", " ", "talk" + "!!" + "");
    WordsStep("my", " ", "cool" + " " + ("talk" + "!!" + ""));
  }
}
