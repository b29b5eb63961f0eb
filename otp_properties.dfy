/**
 * Properties of the OTP matcher: the search is leftmost, keyword priority
 * follows the list order, a keyword-path candidate lies within the gap of its
 * keyword, the fallback runs only when no keyword pattern matches, and the
 * result does not depend on the case of ASCII letters.
 */
module OtpProperties {
  import opened Wrappers
  import opened OtpMatcher

  // ---------------------------------------------------------------------------
  // The search is leftmost.

  /** A failed search means the pattern matches at no position from `s` on. */
  lemma {:induction false} SearchMisses(t: string, kw: string, s: nat)
    decreases |t| - s
    ensures Search(t, kw, s).None? ==> forall p: nat :: s <= p <= |t| ==> !PatternMatchesAt(t, kw, p)
  {
    if s <= |t| && Search(t, kw, s).None? {
      MatchAtMeaning(t, kw, s);
      assert MatchAt(t, kw, s).None?;
      SearchMisses(t, kw, s + 1);
      forall p: nat | s <= p <= |t| ensures !PatternMatchesAt(t, kw, p) {
        if p > s { assert s + 1 <= p; }
      }
    }
  }

  /** The pattern matches where a search stops. */
  lemma SearchHit(t: string, kw: string, s: nat)
    ensures Search(t, kw, s).Some? ==> PatternMatchesAt(t, kw, Search(t, kw, s).value.at)
  {
    SearchHitIsMatch(t, kw, s);
    if Search(t, kw, s).Some? {
      var h := Search(t, kw, s).value;
      MatchAtMeaning(t, kw, h.at);
    }
  }

  /** The pattern matches nowhere between `s` and where a search stops. */
  lemma {:induction false} SearchNothingEarlier(t: string, kw: string, s: nat)
    decreases |t| - s
    ensures Search(t, kw, s).Some? ==> forall p: nat :: s <= p < Search(t, kw, s).value.at ==> !PatternMatchesAt(t, kw, p)
  {
    if s <= |t| && Search(t, kw, s).Some? && MatchAt(t, kw, s).None? {
      MatchAtMeaning(t, kw, s);
      SearchNothingEarlier(t, kw, s + 1);
      var at := Search(t, kw, s).value.at;
      assert Search(t, kw, s + 1).Some? && Search(t, kw, s + 1).value.at == at;
      forall p: nat | s <= p < at ensures !PatternMatchesAt(t, kw, p) {
        if p > s { assert s + 1 <= p; }
      }
    }
  }

  /** The search from `s` fails exactly when the pattern matches at no
      position from `s` on, and otherwise stops at the leftmost match. */
  lemma SearchLeftmost(t: string, kw: string, s: nat)
    ensures Search(t, kw, s).None? <==> forall p: nat :: s <= p <= |t| ==> !PatternMatchesAt(t, kw, p)
    ensures Search(t, kw, s).Some? ==> PatternMatchesAt(t, kw, Search(t, kw, s).value.at)
    ensures Search(t, kw, s).Some? ==> forall p: nat :: s <= p < Search(t, kw, s).value.at ==> !PatternMatchesAt(t, kw, p)
  {
    SearchMisses(t, kw, s);
    SearchHit(t, kw, s);
    SearchNothingEarlier(t, kw, s);
    SearchHitIsMatch(t, kw, s);
    if Search(t, kw, s).Some? {
      var at := Search(t, kw, s).value.at;
      assert s <= at <= |t| && PatternMatchesAt(t, kw, at);
    }
  }

  /** No keyword of the list has a match anywhere in the text. */
  ghost predicate NoKeywordMatch(t: string) {
    forall j: nat, p: nat :: j < |Keywords| && p <= |t| ==> !PatternMatchesAt(t, Keywords[j], p)
  }

  /** Every keyword search fails exactly when no keyword pattern matches. */
  lemma SearchesMiss(t: string)
    ensures (forall j :: 0 <= j < |Keywords| ==> Search(t, Keywords[j], 0).None?) <==> NoKeywordMatch(t)
  {
    if forall j :: 0 <= j < |Keywords| ==> Search(t, Keywords[j], 0).None? {
      forall j: nat, p: nat | j < |Keywords| && p <= |t| ensures !PatternMatchesAt(t, Keywords[j], p) {
        SearchMisses(t, Keywords[j], 0);
      }
    }
    if NoKeywordMatch(t) {
      forall j | 0 <= j < |Keywords| ensures Search(t, Keywords[j], 0).None? {
        SearchHit(t, Keywords[j], 0);
        SearchHitIsMatch(t, Keywords[j], 0);
      }
    }
  }

  // ---------------------------------------------------------------------------
  // Keyword priority.

  /** The keyword loop reports keyword `i` when its search is the first one
      from `from` on that succeeds. */
  lemma {:induction false} FirstHitAt(t: string, kws: seq<string>, i: nat, from: nat)
    requires from <= i < |kws|
    requires Search(t, kws[i], 0).Some?
    requires forall j :: from <= j < i ==> Search(t, kws[j], 0).None?
    decreases i - from
    ensures FirstKeywordHit(t, kws, from) == Some((i, Search(t, kws[i], 0).value))
  {
    var h := Search(t, kws[from], 0);
    if from < i {
      assert h.None?;
      FirstHitAt(t, kws, i, from + 1);
      assert FirstKeywordHit(t, kws, from) == FirstKeywordHit(t, kws, from + 1);
    } else {
      assert h.Some?;
      assert FirstKeywordHit(t, kws, from) == Some((from, h.value));
    }
  }

  /** A keyword-path result names the keyword it came from: that keyword's
      pattern matches at the reported start, nowhere earlier, and no keyword
      before it in the list matches anywhere. */
  lemma KeywordPriority(t: string)
    ensures Locate(t).Some? && Locate(t).value.origin.NearKeyword? ==>
      var i, at := Locate(t).value.origin.index, Locate(t).value.origin.at;
      && i < |Keywords|
      && PatternMatchesAt(t, Keywords[i], at)
      && MatchAt(t, Keywords[i], at) == Some(Locate(t).value.group)
      && (forall p: nat :: p < at ==> !PatternMatchesAt(t, Keywords[i], p))
      && (forall j: nat, p: nat :: j < i && p <= |t| ==> !PatternMatchesAt(t, Keywords[j], p))
  {
    FirstKeywordHitMeaning(t, Keywords, 0);
    var r := FirstKeywordHit(t, Keywords, 0);
    if r.Some? {
      var i := r.value.0;
      SearchLeftmost(t, Keywords[i], 0);
      SearchHitIsMatch(t, Keywords[i], 0);
      forall j: nat, p: nat | j < i && p <= |t| ensures !PatternMatchesAt(t, Keywords[j], p) {
        SearchMisses(t, Keywords[j], 0);
      }
    }
  }

  /** The keyword path is taken exactly when some keyword pattern matches. */
  lemma FallbackOnlyWithoutKeyword(t: string)
    ensures (Locate(t).None? || Locate(t).value.origin.Fallback?) <==> NoKeywordMatch(t)
  {
    FirstKeywordHitMeaning(t, Keywords, 0);
    SearchesMiss(t);
  }

  /** Priority is by list position: when keyword `i` matches somewhere and no
      keyword before it does, keyword `i` decides the result. */
  lemma PriorityByListOrder(t: string, i: nat)
    requires i < |Keywords|
    requires exists p: nat :: p <= |t| && PatternMatchesAt(t, Keywords[i], p)
    requires forall j: nat, p: nat :: j < i && p <= |t| ==> !PatternMatchesAt(t, Keywords[j], p)
    ensures Locate(t).Some? && Locate(t).value.origin.NearKeyword?
    ensures Locate(t).value.origin.index == i
  {
    SearchMisses(t, Keywords[i], 0);
    forall j | 0 <= j < i ensures Search(t, Keywords[j], 0).None? {
      SearchHit(t, Keywords[j], 0);
      SearchHitIsMatch(t, Keywords[j], 0);
    }
    FirstHitAt(t, Keywords, i, 0);
  }

  /** The keyword loop stops at the first hit: the keywords after it are
      never searched, so replacing them changes nothing. */
  lemma LaterKeywordsIgnored(t: string, kws: seq<string>, kws': seq<string>)
    requires FirstKeywordHit(t, kws, 0).Some?
    requires FirstKeywordHit(t, kws, 0).value.0 < |kws'|
    requires forall j :: 0 <= j <= FirstKeywordHit(t, kws, 0).value.0 && j < |kws| ==> kws'[j] == kws[j]
    ensures FirstKeywordHit(t, kws', 0) == FirstKeywordHit(t, kws, 0)
  {
    FirstKeywordHitMeaning(t, kws, 0);
    var i := FirstKeywordHit(t, kws, 0).value.0;
    FirstHitAt(t, kws, i, 0);
    assert kws'[i] == kws[i];
    forall j | 0 <= j < i ensures Search(t, kws'[j], 0).None? {
      assert kws'[j] == kws[j];
    }
    FirstHitAt(t, kws', i, 0);
  }

  // ---------------------------------------------------------------------------
  // Where a keyword-path candidate lies.

  /** The keyword at `q`, then at most 30 non-newline characters, then the digits. */
  ghost predicate KeywordBeforeDigits(t: string, kw: string, q: nat, g: Span) {
    && KeywordAt(t, kw, q)
    && q + |kw| <= g.start <= q + |kw| + MaxGap
    && GapAt(t, q + |kw|, g.start - (q + |kw|))
  }

  /** The digits, then at most 30 non-newline characters, then the keyword at `q`. */
  ghost predicate KeywordAfterDigits(t: string, kw: string, q: nat, g: Span) {
    && KeywordAt(t, kw, q)
    && g.start + g.len <= q <= g.start + g.len + MaxGap
    && GapAt(t, g.start + g.len, q - (g.start + g.len))
  }

  ghost predicate KeywordNear(t: string, kw: string, q: nat, g: Span) {
    KeywordBeforeDigits(t, kw, q, g) || KeywordAfterDigits(t, kw, q, g)
  }

  /** Whatever group the engine captures at `s` lies within 30 non-newline
      characters of an occurrence of the keyword. */
  lemma CaptureNearKeyword(t: string, kw: string, s: nat)
    requires MatchAt(t, kw, s).Some?
    ensures exists q: nat :: KeywordNear(t, kw, q, MatchAt(t, kw, s).value)
  {
    MatchAtMeaning(t, kw, s);
    var g := MatchAt(t, kw, s).value;
    if KeywordFirstMatches(t, kw, s) {
      assert KeywordBeforeDigits(t, kw, s, g);
      assert KeywordNear(t, kw, s, g);
    } else {
      assert KeywordFollows(t, kw, s + g.len);
      var k: nat :| k <= MaxGap && GapThenKeyword(t, kw, s + g.len, k);
      assert KeywordAfterDigits(t, kw, s + g.len + k, g);
      assert KeywordNear(t, kw, s + g.len + k, g);
    }
  }

  /** A candidate found through a keyword has that keyword at most 30
      non-newline characters before or after it. */
  lemma KeywordProximity(t: string)
    ensures Locate(t).Some? && Locate(t).value.origin.NearKeyword? ==>
      exists q: nat :: KeywordNear(t, Keywords[Locate(t).value.origin.index], q, Locate(t).value.group)
  {
    FirstKeywordHitMeaning(t, Keywords, 0);
    var r := FirstKeywordHit(t, Keywords, 0);
    if r.Some? {
      var (i, h) := r.value;
      SearchHitIsMatch(t, Keywords[i], 0);
      CaptureNearKeyword(t, Keywords[i], h.at);
    }
  }

  // ---------------------------------------------------------------------------
  // The fallback.

  /** `\b\d{6}\b` is a run of exactly six digits with no word character
      right before or right after it. */
  lemma StandaloneSixMeaning(t: string, s: nat)
    ensures StandaloneSixAt(t, s) <==>
      DigitsAt(t, s, FallbackDigits) && !WordAt(t, s - 1) && !WordAt(t, s + FallbackDigits)
  {
  }

  /** Without a keyword match the result is the leftmost standalone run of six
      digits, and there is no result when there is no such run. */
  lemma FallbackLeftmostSix(t: string)
    requires NoKeywordMatch(t)
    ensures FindOtp(t).None? <==> forall s: nat :: s <= |t| ==> !StandaloneSixAt(t, s)
    ensures Locate(t).Some? ==>
      && Locate(t).value.origin.Fallback?
      && Locate(t).value.group.len == FallbackDigits
      && StandaloneSixAt(t, Locate(t).value.group.start)
      && forall s: nat :: s < Locate(t).value.group.start ==> !StandaloneSixAt(t, s)
  {
    FirstKeywordHitMeaning(t, Keywords, 0);
    SearchesMiss(t);
    FallbackSearchMeaning(t, 0);
  }

  // ---------------------------------------------------------------------------
  // Case insensitivity.

  /** The text with its ASCII letters lower-cased. */
  function Lower(t: string): string {
    if |t| == 0 then [] else [Fold(t[0])] + Lower(t[1..])
  }

  /** Lower-casing keeps the length and folds each character in place. */
  lemma {:induction false} LowerAt(t: string, i: nat)
    requires i < |t|
    ensures |Lower(t)| == |t| && Lower(t)[i] == Fold(t[i])
  {
    LowerLength(t[1..]);
    if i > 0 {
      LowerAt(t[1..], i - 1);
    }
  }

  lemma {:induction false} LowerLength(t: string)
    ensures |Lower(t)| == |t|
  {
    if |t| > 0 {
      LowerLength(t[1..]);
    }
  }

  /** Two texts that differ at most in the case of ASCII letters. */
  predicate CaseEquiv(t: string, u: string) {
    Lower(t) == Lower(u)
  }

  /** Folding keeps digits, newlines and word characters apart from the rest. */
  lemma FoldKeepsClasses(a: char, b: char)
    requires Fold(a) == Fold(b)
    ensures IsDigit(a) == IsDigit(b) && (IsDigit(a) ==> a == b)
    ensures (a == '\n') == (b == '\n')
    ensures IsWordChar(a) == IsWordChar(b)
  {
  }

  /** Case-equivalent texts have the same length and fold alike at each position. */
  lemma SameFold(t: string, u: string, i: nat)
    requires CaseEquiv(t, u)
    ensures |t| == |u|
    ensures i < |t| ==> Fold(t[i]) == Fold(u[i])
  {
    LowerLength(t);
    LowerLength(u);
    if i < |t| {
      LowerAt(t, i);
      LowerAt(u, i);
    }
  }

  /** Case-equivalent texts are equal at every position where either holds a
      digit, a newline or a word character class member. */
  lemma SameClasses(t: string, u: string, i: nat)
    requires CaseEquiv(t, u) && i < |t|
    ensures |t| == |u|
    ensures IsDigit(t[i]) == IsDigit(u[i]) && (IsDigit(t[i]) ==> t[i] == u[i])
    ensures (t[i] == '\n') == (u[i] == '\n')
    ensures IsWordChar(t[i]) == IsWordChar(u[i])
  {
    SameFold(t, u, i);
    FoldKeepsClasses(t[i], u[i]);
  }

  lemma DigitsAgree(t: string, u: string, i: nat, m: nat)
    requires CaseEquiv(t, u)
    ensures DigitsAt(t, i, m) == DigitsAt(u, i, m)
  {
    SameFold(t, u, 0);
    forall j | i <= j < i + m && j < |t| ensures IsDigit(t[j]) == IsDigit(u[j]) {
      SameClasses(t, u, j);
    }
  }

  lemma GapAgree(t: string, u: string, i: nat, k: nat)
    requires CaseEquiv(t, u)
    ensures GapAt(t, i, k) == GapAt(u, i, k)
  {
    SameFold(t, u, 0);
    forall j | i <= j < i + k && j < |t| ensures (t[j] == '\n') == (u[j] == '\n') {
      SameClasses(t, u, j);
    }
  }

  lemma KeywordAgree(t: string, u: string, kw: string, i: nat)
    requires CaseEquiv(t, u)
    ensures KeywordAt(t, kw, i) == KeywordAt(u, kw, i)
  {
    SameFold(t, u, 0);
    forall j | i <= j < i + |kw| && j < |t| ensures Fold(t[j]) == Fold(u[j]) {
      SameFold(t, u, j);
    }
  }

  lemma WordAgree(t: string, u: string, i: int)
    requires CaseEquiv(t, u)
    ensures WordAt(t, i) == WordAt(u, i)
  {
    SameFold(t, u, 0);
    if 0 <= i < |t| {
      SameClasses(t, u, i);
    }
  }

  lemma KeywordFollowsAgree(t: string, u: string, kw: string, p: nat)
    requires CaseEquiv(t, u)
    ensures KeywordFollows(t, kw, p) == KeywordFollows(u, kw, p)
  {
    forall k: nat | k <= MaxGap ensures GapThenKeyword(t, kw, p, k) == GapThenKeyword(u, kw, p, k) {
      GapAgree(t, u, p, k);
      KeywordAgree(t, u, kw, p + k);
    }
  }

  lemma {:induction false} GreedyDigitsAgree(t: string, u: string, i: nat, m: nat)
    requires CaseEquiv(t, u)
    decreases m
    ensures GreedyDigits(t, i, m) == GreedyDigits(u, i, m)
  {
    if m >= MinDigits {
      DigitsAgree(t, u, i, m);
      GreedyDigitsAgree(t, u, i, m - 1);
    }
  }

  lemma {:induction false} GapThenDigitsFromAgree(t: string, u: string, p: nat, k: nat)
    requires CaseEquiv(t, u) && k <= MaxGap
    decreases k
    ensures GapThenDigitsFrom(t, p, k) == GapThenDigitsFrom(u, p, k)
  {
    GapAgree(t, u, p, k);
    GreedyDigitsAgree(t, u, p + k, MaxDigits);
    var d := GreedyDigits(t, p + k, MaxDigits);
    if GapAt(t, p, k) && d.Some? {
      assert GapThenDigitsFrom(t, p, k) == Some(Span(p + k, d.value));
      assert GapThenDigitsFrom(u, p, k) == Some(Span(p + k, d.value));
    } else if k > 0 {
      GapThenDigitsFromAgree(t, u, p, k - 1);
      assert GapThenDigitsFrom(t, p, k) == GapThenDigitsFrom(t, p, k - 1);
      assert GapThenDigitsFrom(u, p, k) == GapThenDigitsFrom(u, p, k - 1);
    }
  }

  lemma {:induction false} DigitsFirstFromAgree(t: string, u: string, kw: string, s: nat, m: nat)
    requires CaseEquiv(t, u) && m <= MaxDigits
    decreases m
    ensures DigitsFirstFrom(t, kw, s, m) == DigitsFirstFrom(u, kw, s, m)
  {
    if m >= MinDigits {
      DigitsAgree(t, u, s, m);
      KeywordFollowsAgree(t, u, kw, s + m);
      DigitsFirstFromAgree(t, u, kw, s, m - 1);
    }
  }

  lemma KeywordFirstAgree(t: string, u: string, kw: string, s: nat)
    requires CaseEquiv(t, u)
    ensures KeywordFirst(t, kw, s) == KeywordFirst(u, kw, s)
  {
    KeywordAgree(t, u, kw, s);
    GapThenDigitsFromAgree(t, u, s + |kw|, MaxGap);
    assert KeywordAt(t, kw, s) == KeywordAt(u, kw, s);
    assert GapThenDigitsFrom(t, s + |kw|, MaxGap) == GapThenDigitsFrom(u, s + |kw|, MaxGap);
  }

  lemma MatchAtAgree(t: string, u: string, kw: string, s: nat)
    requires CaseEquiv(t, u)
    ensures MatchAt(t, kw, s) == MatchAt(u, kw, s)
  {
    KeywordFirstAgree(t, u, kw, s);
    DigitsFirstFromAgree(t, u, kw, s, MaxDigits);
    assert DigitsFirst(t, kw, s) == DigitsFirst(u, kw, s);
  }

  lemma {:induction false} SearchAgree(t: string, u: string, kw: string, s: nat)
    requires CaseEquiv(t, u)
    decreases |t| - s
    ensures Search(t, kw, s) == Search(u, kw, s)
  {
    SameFold(t, u, 0);
    if s <= |t| {
      MatchAtAgree(t, u, kw, s);
      SearchAgree(t, u, kw, s + 1);
    }
  }

  lemma {:induction false} FirstKeywordHitAgree(t: string, u: string, kws: seq<string>, i: nat)
    requires CaseEquiv(t, u) && i <= |kws|
    decreases |kws| - i
    ensures FirstKeywordHit(t, kws, i) == FirstKeywordHit(u, kws, i)
  {
    if i < |kws| {
      SearchAgree(t, u, kws[i], 0);
      FirstKeywordHitAgree(t, u, kws, i + 1);
    }
  }

  lemma SixAgree(t: string, u: string, s: nat)
    requires CaseEquiv(t, u)
    ensures StandaloneSixAt(t, s) == StandaloneSixAt(u, s)
  {
    WordAgree(t, u, s - 1);
    WordAgree(t, u, s);
    WordAgree(t, u, s + FallbackDigits - 1);
    WordAgree(t, u, s + FallbackDigits);
    DigitsAgree(t, u, s, FallbackDigits);
  }

  lemma {:induction false} FallbackSearchAgree(t: string, u: string, s: nat)
    requires CaseEquiv(t, u)
    decreases |t| - s
    ensures FallbackSearch(t, s) == FallbackSearch(u, s)
  {
    SameFold(t, u, 0);
    if s <= |t| {
      SixAgree(t, u, s);
      FallbackSearchAgree(t, u, s + 1);
    }
  }

  /** Changing the case of ASCII letters changes neither the candidate nor
      the digits returned. */
  lemma CaseInsensitive(t: string, u: string)
    requires CaseEquiv(t, u)
    ensures Locate(t) == Locate(u)
    ensures FindOtp(t) == FindOtp(u)
  {
    FirstKeywordHitAgree(t, u, Keywords, 0);
    FallbackSearchAgree(t, u, 0);
    LocateShape(t);
    SameFold(t, u, 0);
    var r := Locate(t);
    if r.Some? {
      var g := r.value.group;
      forall j | g.start <= j < g.start + g.len ensures t[j] == u[j] {
        SameClasses(t, u, j);
      }
      assert Slice(t, g) == Slice(u, g);
    }
  }
}
