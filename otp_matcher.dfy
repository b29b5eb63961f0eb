/**
 * The OTP matcher `find_otp`.
 *
 * For each keyword, in list order, the matcher searches the text for the
 * pattern `kw.{0,30}(\d{4,8})|(\d{4,8}).{0,30}kw` with case-insensitive
 * matching; the first keyword whose search succeeds decides the result. If no
 * keyword pattern matches, the leftmost `\b\d{6}\b` is the result.
 *
 * The regular-expression search is written out as the backtracking order of a
 * leftmost-first engine: start positions left to right; at each start the
 * keyword-first alternative, then the digits-first one; every bounded
 * repetition greedy, retried from its longest length downwards. Each of these
 * search functions is specified by a declarative predicate (what the pattern
 * means) together with the maximality the greedy order implies.
 *
 * Characters are restricted to ASCII: `\d` is '0'..'9', a word character is an
 * ASCII letter, an ASCII digit or '_', and case folding maps 'A'..'Z' to
 * 'a'..'z'.
 */
module OtpMatcher {
  import opened Wrappers

  /** The keywords, in priority order. */
  const Keywords: seq<string> := ["otp", "code", "pin", "password", "verification"]

  /** The bound of the filler `.{0,30}`. */
  const MaxGap: nat := 30
  /** The bounds of `\d{4,8}`. */
  const MinDigits: nat := 4
  const MaxDigits: nat := 8
  /** The length of the fallback run `\d{6}`. */
  const FallbackDigits: nat := 6

  predicate IsDigit(c: char) {
    '0' <= c <= '9'
  }

  predicate IsWordChar(c: char) {
    IsDigit(c) || 'a' <= c <= 'z' || 'A' <= c <= 'Z' || c == '_'
  }

  /** Case folding used by case-insensitive matching. */
  function Fold(c: char): char {
    if 'A' <= c <= 'Z' then (c as int + 32) as char else c
  }

  /** The characters `t[start .. start + len]` of the text. */
  datatype Span = Span(start: nat, len: nat)

  predicate Within(t: string, g: Span) {
    g.start + g.len <= |t|
  }

  function Slice(t: string, g: Span): string
    requires Within(t, g)
  {
    t[g.start .. g.start + g.len]
  }

  // ---------------------------------------------------------------------------
  // The pieces of the pattern, as predicates on the text.

  /** The keyword occurs at `i`, ignoring case. */
  predicate KeywordAt(t: string, kw: string, i: nat) {
    i + |kw| <= |t| && forall j {:trigger kw[j]} :: 0 <= j < |kw| ==> Fold(t[i + j]) == Fold(kw[j])
  }

  /** `m` digits start at `i`. */
  predicate DigitsAt(t: string, i: nat, m: nat) {
    i + m <= |t| && forall j :: i <= j < i + m ==> IsDigit(t[j])
  }

  /** `k` characters that `.` matches (anything but a newline) start at `i`. */
  predicate GapAt(t: string, i: nat, k: nat) {
    i + k <= |t| && forall j :: i <= j < i + k ==> t[j] != '\n'
  }

  /** A window that greedy `\d{4,8}` captures: four to eight digits, and
      fewer than eight only where the digits stop. */
  predicate GreedyWindow(t: string, g: Span) {
    && MinDigits <= g.len <= MaxDigits
    && DigitsAt(t, g.start, g.len)
    && (g.len < MaxDigits ==> !DigitsAt(t, g.start, g.len + 1))
  }

  /** Alternative 1 after its keyword, which ends at `p`: a gap of `k` then at least four digits. */
  predicate GapThenDigits(t: string, p: nat, k: nat) {
    k <= MaxGap && GapAt(t, p, k) && DigitsAt(t, p + k, MinDigits)
  }

  /** Some gap from `p` on is followed by four digits. */
  ghost predicate DigitsFollow(t: string, p: nat) {
    exists k: nat :: GapThenDigits(t, p, k)
  }

  /** Alternative 1, `kw.{0,30}\d{4,8}`, matches at `s`. */
  ghost predicate KeywordFirstMatches(t: string, kw: string, s: nat) {
    KeywordAt(t, kw, s) && DigitsFollow(t, s + |kw|)
  }

  /** Alternative 2 after its digits, which end at `p`: a gap of `k` then the keyword. */
  predicate GapThenKeyword(t: string, kw: string, p: nat, k: nat) {
    k <= MaxGap && GapAt(t, p, k) && KeywordAt(t, kw, p + k)
  }

  /** `.{0,30}kw` from `p`: some gap is followed by the keyword. Which gap
      the greedy filler settles on does not change the captured digits. */
  predicate KeywordFollows(t: string, kw: string, p: nat) {
    exists k: nat | k <= MaxGap :: GapThenKeyword(t, kw, p, k)
  }

  /** Alternative 2 matches at `s` with a group of exactly `m` digits. */
  ghost predicate DigitsThenKeyword(t: string, kw: string, s: nat, m: nat) {
    MinDigits <= m <= MaxDigits && DigitsAt(t, s, m) && KeywordFollows(t, kw, s + m)
  }

  /** Alternative 2, `\d{4,8}.{0,30}kw`, matches at `s`. */
  ghost predicate DigitsFirstMatches(t: string, kw: string, s: nat) {
    exists m: nat :: DigitsThenKeyword(t, kw, s, m)
  }

  /** The whole keyword pattern matches at `s`. */
  ghost predicate PatternMatchesAt(t: string, kw: string, s: nat) {
    KeywordFirstMatches(t, kw, s) || DigitsFirstMatches(t, kw, s)
  }

  /** `k` is the longest gap from `p` that is followed by four digits. */
  ghost predicate LongestGap(t: string, p: nat, k: nat) {
    GapThenDigits(t, p, k) && forall k': nat :: k < k' ==> !GapThenDigits(t, p, k')
  }

  /** The group alternative 1 captures at `s`: the gap is the longest one
      that still leaves four digits, and the digits are a greedy window. */
  ghost predicate KeywordFirstCapture(t: string, kw: string, s: nat, g: Span) {
    && KeywordAt(t, kw, s)
    && s + |kw| <= g.start
    && LongestGap(t, s + |kw|, g.start - (s + |kw|))
    && GreedyWindow(t, g)
  }

  /** The group alternative 2 captures at `s`: the longest digit run of at
      most eight that the keyword follows within the gap. */
  ghost predicate DigitsFirstCapture(t: string, kw: string, s: nat, g: Span) {
    && g.start == s
    && DigitsThenKeyword(t, kw, s, g.len)
    && forall m: nat :: g.len < m ==> !DigitsThenKeyword(t, kw, s, m)
  }

  // ---------------------------------------------------------------------------
  // The backtracking search. Each function is the engine's own order of
  // attempts; what it computes is stated by the lemma after it.

  /** Greedy `\d{4,8}` at `i`, trying the lengths `m`, `m - 1`, ..., 4. */
  function GreedyDigits(t: string, i: nat, m: nat): Option<nat>
    decreases m
  {
    if m < MinDigits then None
    else if DigitsAt(t, i, m) then Some(m)
    else GreedyDigits(t, i, m - 1)
  }

  /** The greedy digit count is the longest run of at most `m` digits, and
      there is none when fewer than four digits start at `i`. */
  lemma {:induction false} GreedyDigitsMeaning(t: string, i: nat, m: nat)
    decreases m
    ensures GreedyDigits(t, i, m).Some? ==>
      var v := GreedyDigits(t, i, m).value;
      && MinDigits <= v <= m && DigitsAt(t, i, v)
      && forall m': nat :: v < m' <= m ==> !DigitsAt(t, i, m')
    ensures GreedyDigits(t, i, m).None? ==> forall m': nat :: MinDigits <= m' <= m ==> !DigitsAt(t, i, m')
  {
    if m >= MinDigits && !DigitsAt(t, i, m) {
      GreedyDigitsMeaning(t, i, m - 1);
    }
  }

  /** Greedy `.{0,30}(\d{4,8})` from `p`, trying the gaps `k`, `k - 1`, ..., 0. */
  function GapThenDigitsFrom(t: string, p: nat, k: nat): Option<Span>
    requires k <= MaxGap
    decreases k
  {
    var d := GreedyDigits(t, p + k, MaxDigits);
    if GapAt(t, p, k) && d.Some? then Some(Span(p + k, d.value))
    else if k == 0 then None
    else GapThenDigitsFrom(t, p, k - 1)
  }

  /** The filler settles on the longest gap of at most `k` that four digits
      follow, and the group is the greedy digit window there. */
  lemma {:induction false} GapThenDigitsFromMeaning(t: string, p: nat, k: nat)
    requires k <= MaxGap
    decreases k
    ensures GapThenDigitsFrom(t, p, k).Some? ==>
      var g := GapThenDigitsFrom(t, p, k).value;
      && p <= g.start <= p + k
      && GapThenDigits(t, p, g.start - p) && GreedyWindow(t, g)
      && forall k': nat :: g.start - p < k' <= k ==> !GapThenDigits(t, p, k')
    ensures GapThenDigitsFrom(t, p, k).None? ==> forall k': nat :: k' <= k ==> !GapThenDigits(t, p, k')
  {
    GreedyDigitsMeaning(t, p + k, MaxDigits);
    var d := GreedyDigits(t, p + k, MaxDigits);
    if GapAt(t, p, k) && d.Some? {
      assert GapThenDigitsFrom(t, p, k) == Some(Span(p + k, d.value));
      assert GapThenDigits(t, p, k);
    } else {
      assert !GapThenDigits(t, p, k);
      if k > 0 {
        GapThenDigitsFromMeaning(t, p, k - 1);
        var r := GapThenDigitsFrom(t, p, k - 1);
        assert GapThenDigitsFrom(t, p, k) == r;
        if r.Some? {
          forall k': nat | r.value.start - p < k' <= k ensures !GapThenDigits(t, p, k') {
            if k' < k { assert k' <= k - 1; }
          }
        } else {
          forall k': nat | k' <= k ensures !GapThenDigits(t, p, k') {
            if k' < k { assert k' <= k - 1; }
          }
        }
      }
    }
  }

  /** Alternative 1 at `s`. */
  function KeywordFirst(t: string, kw: string, s: nat): Option<Span> {
    if KeywordAt(t, kw, s) then GapThenDigitsFrom(t, s + |kw|, MaxGap) else None
  }

  /** Alternative 1 succeeds exactly when it matches, with the group of the
      longest gap and the greedy digit window. */
  lemma KeywordFirstMeaning(t: string, kw: string, s: nat)
    ensures KeywordFirst(t, kw, s).Some? <==> KeywordFirstMatches(t, kw, s)
    ensures KeywordFirst(t, kw, s).Some? ==> KeywordFirstCapture(t, kw, s, KeywordFirst(t, kw, s).value)
  {
    var p := s + |kw|;
    GapThenDigitsFromMeaning(t, p, MaxGap);
    if KeywordAt(t, kw, s) {
      var r := GapThenDigitsFrom(t, p, MaxGap);
      if r.Some? {
        assert GapThenDigits(t, p, r.value.start - p);
        forall k': nat | r.value.start - p < k' ensures !GapThenDigits(t, p, k') {
        }
      } else {
        assert forall k: nat :: !GapThenDigits(t, p, k);
      }
    }
  }

  /** Alternative 2 at `s`, trying the digit counts `m`, `m - 1`, ..., 4. */
  function DigitsFirstFrom(t: string, kw: string, s: nat, m: nat): Option<Span>
    requires m <= MaxDigits
    decreases m
  {
    if m < MinDigits then None
    else if DigitsAt(t, s, m) && KeywordFollows(t, kw, s + m) then Some(Span(s, m))
    else DigitsFirstFrom(t, kw, s, m - 1)
  }

  /** The digit count settles on the longest run of at most `m` digits that
      the keyword follows within the gap. */
  lemma {:induction false} DigitsFirstFromMeaning(t: string, kw: string, s: nat, m: nat)
    requires m <= MaxDigits
    decreases m
    ensures DigitsFirstFrom(t, kw, s, m).Some? ==>
      var g := DigitsFirstFrom(t, kw, s, m).value;
      && g.start == s && g.len <= m && DigitsThenKeyword(t, kw, s, g.len)
      && forall m': nat :: g.len < m' <= m ==> !DigitsThenKeyword(t, kw, s, m')
    ensures DigitsFirstFrom(t, kw, s, m).None? ==> forall m': nat :: m' <= m ==> !DigitsThenKeyword(t, kw, s, m')
  {
    if m >= MinDigits && !(DigitsAt(t, s, m) && KeywordFollows(t, kw, s + m)) {
      DigitsFirstFromMeaning(t, kw, s, m - 1);
    }
  }

  /** Alternative 2 at `s`. */
  function DigitsFirst(t: string, kw: string, s: nat): Option<Span> {
    DigitsFirstFrom(t, kw, s, MaxDigits)
  }

  /** Alternative 2 succeeds exactly when it matches, with the longest digit
      run the keyword follows. */
  lemma DigitsFirstMeaning(t: string, kw: string, s: nat)
    ensures DigitsFirst(t, kw, s).Some? <==> DigitsFirstMatches(t, kw, s)
    ensures DigitsFirst(t, kw, s).Some? ==> DigitsFirstCapture(t, kw, s, DigitsFirst(t, kw, s).value)
  {
    DigitsFirstFromMeaning(t, kw, s, MaxDigits);
  }

  /** The engine at one start position: alternative 1 first, then alternative 2. */
  function MatchAt(t: string, kw: string, s: nat): Option<Span> {
    var a := KeywordFirst(t, kw, s);
    if a.Some? then a else DigitsFirst(t, kw, s)
  }

  /** The engine succeeds at `s` exactly when the pattern matches there; the
      group is alternative 1's whenever alternative 1 matches. */
  lemma MatchAtMeaning(t: string, kw: string, s: nat)
    ensures MatchAt(t, kw, s).Some? <==> PatternMatchesAt(t, kw, s)
    ensures MatchAt(t, kw, s).Some? ==> Within(t, MatchAt(t, kw, s).value)
    ensures KeywordFirstMatches(t, kw, s) ==> KeywordFirstCapture(t, kw, s, MatchAt(t, kw, s).value)
    ensures MatchAt(t, kw, s).Some? && !KeywordFirstMatches(t, kw, s) ==>
      DigitsFirstCapture(t, kw, s, MatchAt(t, kw, s).value)
  {
    KeywordFirstMeaning(t, kw, s);
    DigitsFirstMeaning(t, kw, s);
  }

  /** A successful search: where the match starts and the digits it captured. */
  datatype Hit = Hit(at: nat, group: Span)

  /** `re.search(pattern, t[s..], re.IGNORECASE)`: start positions are tried
      from `s` on. */
  function Search(t: string, kw: string, s: nat): Option<Hit>
    decreases |t| - s
  {
    if s > |t| then None
    else
      var g := MatchAt(t, kw, s);
      if g.Some? then Some(Hit(s, g.value)) else Search(t, kw, s + 1)
  }

  /** A hit is the engine's result at a start position from `s` on; that it
      is the leftmost match is lemma OtpProperties.SearchLeftmost. */
  lemma {:induction false} SearchHitIsMatch(t: string, kw: string, s: nat)
    decreases |t| - s
    ensures Search(t, kw, s).Some? ==>
      var h := Search(t, kw, s).value;
      s <= h.at <= |t| && MatchAt(t, kw, h.at) == Some(h.group)
  {
    if s <= |t| && MatchAt(t, kw, s).None? {
      SearchHitIsMatch(t, kw, s + 1);
    }
  }

  /** The keyword loop from index `i`: the first keyword whose search
      succeeds, with its index; the keywords after it are not searched. */
  function FirstKeywordHit(t: string, kws: seq<string>, i: nat): Option<(nat, Hit)>
    requires i <= |kws|
    decreases |kws| - i
  {
    if i == |kws| then None
    else
      var h := Search(t, kws[i], 0);
      if h.Some? then Some((i, h.value)) else FirstKeywordHit(t, kws, i + 1)
  }

  /** The loop reports the first keyword from `i` on whose search succeeds,
      and reports nothing exactly when every search fails. */
  lemma {:induction false} FirstKeywordHitMeaning(t: string, kws: seq<string>, i: nat)
    requires i <= |kws|
    decreases |kws| - i
    ensures FirstKeywordHit(t, kws, i).Some? ==>
      var (idx, h) := FirstKeywordHit(t, kws, i).value;
      && i <= idx < |kws| && Search(t, kws[idx], 0) == Some(h)
      && forall j :: i <= j < idx ==> Search(t, kws[j], 0).None?
    ensures FirstKeywordHit(t, kws, i).None? <==> forall j :: i <= j < |kws| ==> Search(t, kws[j], 0).None?
  {
    if i < |kws| && Search(t, kws[i], 0).None? {
      FirstKeywordHitMeaning(t, kws, i + 1);
      assert FirstKeywordHit(t, kws, i) == FirstKeywordHit(t, kws, i + 1);
    }
  }

  // ---------------------------------------------------------------------------
  // The fallback `\b\d{6}\b`.

  predicate WordAt(t: string, i: int) {
    0 <= i < |t| && IsWordChar(t[i])
  }

  /** `\b` at `i`: exactly one of the characters around `i` is a word character. */
  predicate Boundary(t: string, i: int) {
    WordAt(t, i - 1) != WordAt(t, i)
  }

  /** `\b\d{6}\b` matches at `s`. */
  predicate StandaloneSixAt(t: string, s: nat) {
    Boundary(t, s) && DigitsAt(t, s, FallbackDigits) && Boundary(t, s + FallbackDigits)
  }

  /** `re.search(r"\b\d{6}\b", t[s..])`: the leftmost start from `s` on. */
  function FallbackSearch(t: string, s: nat): Option<nat>
    decreases |t| - s
  {
    if s > |t| then None
    else if StandaloneSixAt(t, s) then Some(s)
    else FallbackSearch(t, s + 1)
  }

  /** The fallback search fails exactly when no standalone six-digit run starts
      from `s` on, and otherwise finds the leftmost one. */
  lemma {:induction false} FallbackSearchMeaning(t: string, s: nat)
    decreases |t| - s
    ensures FallbackSearch(t, s).None? <==> forall p: nat :: s <= p <= |t| ==> !StandaloneSixAt(t, p)
    ensures FallbackSearch(t, s).Some? ==>
      var v := FallbackSearch(t, s).value;
      s <= v <= |t| && StandaloneSixAt(t, v) && forall p: nat :: s <= p < v ==> !StandaloneSixAt(t, p)
  {
    if s <= |t| && !StandaloneSixAt(t, s) {
      FallbackSearchMeaning(t, s + 1);
    }
  }

  // ---------------------------------------------------------------------------
  // find_otp

  /** Which rule produced a candidate: the keyword at `index` of the list,
      whose pattern matched from position `at`, or the fallback. */
  datatype Origin = NearKeyword(index: nat, at: nat) | Fallback

  datatype Found = Found(group: Span, origin: Origin)

  /** The candidate `find_otp` returns, located in the text. */
  function Locate(t: string): Option<Found> {
    match FirstKeywordHit(t, Keywords, 0)
    case Some((i, h)) => Some(Found(h.group, NearKeyword(i, h.at)))
    case None =>
      match FallbackSearch(t, 0)
      case Some(s) => Some(Found(Span(s, FallbackDigits), Fallback))
      case None => None
  }

  /** A located candidate is a run of four to eight digits inside the text;
      a keyword candidate names a keyword of the list. */
  lemma LocateShape(t: string)
    ensures Locate(t).Some? ==>
      var f := Locate(t).value;
      && Within(t, f.group) && DigitsAt(t, f.group.start, f.group.len)
      && MinDigits <= f.group.len <= MaxDigits
      && (f.origin.NearKeyword? ==> f.origin.index < |Keywords|)
  {
    FirstKeywordHitMeaning(t, Keywords, 0);
    FallbackSearchMeaning(t, 0);
    var r := FirstKeywordHit(t, Keywords, 0);
    if r.Some? {
      var (i, h) := r.value;
      SearchHitIsMatch(t, Keywords[i], 0);
      MatchAtMeaning(t, Keywords[i], h.at);
    }
  }

  predicate AllDigits(s: string) {
    forall j :: 0 <= j < |s| ==> IsDigit(s[j])
  }

  predicate OccursAt(t: string, w: string, i: nat) {
    i + |w| <= |t| && t[i .. i + |w|] == w
  }

  /** `find_otp(text)`: `None`, or the digits of the located candidate. */
  function FindOtp(t: string): Option<string> {
    match Locate(t)
    case Some(f) =>
      LocateShape(t);
      Some(Slice(t, f.group))
    case None => None
  }

  /** The result is `None` or four to eight digits taken from the text. */
  lemma FindOtpShape(t: string)
    ensures FindOtp(t).Some? ==> MinDigits <= |FindOtp(t).value| <= MaxDigits && AllDigits(FindOtp(t).value)
    ensures FindOtp(t).Some? ==> exists i :: OccursAt(t, FindOtp(t).value, i)
  {
    LocateShape(t);
    if Locate(t).Some? {
      var g := Locate(t).value.group;
      assert OccursAt(t, Slice(t, g), g.start);
    }
  }
}
