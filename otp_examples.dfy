/**
 * Worked inputs of `find_otp`, each derived from the meaning of the matcher
 * rather than by running it.
 */
module OtpExamples {
  import opened Wrappers
  import opened OtpMatcher
  import opened OtpProperties

  /** A keyword search can only succeed where the keyword occurs. */
  lemma SearchNeedsKeyword(t: string, kw: string)
    ensures Search(t, kw, 0).Some? ==> exists q: nat :: q <= |t| && KeywordAt(t, kw, q)
  {
    SearchHit(t, kw, 0);
    if Search(t, kw, 0).Some? {
      var at := Search(t, kw, 0).value.at;
      if KeywordFirstMatches(t, kw, at) {
        assert at <= |t| && KeywordAt(t, kw, at);
      } else {
        var m: nat :| DigitsThenKeyword(t, kw, at, m);
        var k: nat :| k <= MaxGap && GapThenKeyword(t, kw, at + m, k);
        assert at + m + k <= |t| && KeywordAt(t, kw, at + m + k);
      }
    }
  }

  /** "otp" occurs in neither worked text. */
  lemma OtpAbsent(t: string)
    requires t == "code 123456" || t == "123456 code"
    ensures Search(t, Keywords[0], 0).None?
  {
    var kw := Keywords[0];
    SearchNeedsKeyword(t, kw);
    forall q: nat | q <= |t| ensures !KeywordAt(t, kw, q) {
      if q + |kw| <= |t| {
        assert q == 0 || q == 1 || q == 2 || q == 3 || q == 4 || q == 5 || q == 6 || q == 7 || q == 8;
        if (t == "code 123456" && q == 1) || (t == "123456 code" && q == 8) {
          assert Fold(t[q + 1]) != Fold(kw[1]);
        } else {
          assert Fold(t[q + 0]) != Fold(kw[0]);
        }
      }
    }
  }

  /** "12345678": no keyword occurs, and the eight-digit run holds no
      standalone six digits, so there is no OTP. */
  lemma EightDigitsGiveNone(t: string)
    requires t == "12345678"
    ensures FindOtp(t) == None
  {
    forall j | 0 <= j < |Keywords| ensures Search(t, Keywords[j], 0).None? {
      SearchNeedsKeyword(t, Keywords[j]);
      forall q: nat | q <= |t| ensures !KeywordAt(t, Keywords[j], q) {
        if q + |Keywords[j]| <= |t| {
          assert IsDigit(t[q]) && !IsDigit(Keywords[j][0]);
          assert Fold(t[q + 0]) != Fold(Keywords[j][0]);
        }
      }
    }
    FirstKeywordHitMeaning(t, Keywords, 0);
    FallbackSearchMeaning(t, 0);
    forall s: nat | s <= |t| ensures !StandaloneSixAt(t, s) {
      if s == 0 {
        assert WordAt(t, 5) && WordAt(t, 6);
      } else if s <= 2 {
        assert WordAt(t, s - 1) && WordAt(t, s);
      }
    }
  }

  /** The digits returned are the group of the first keyword whose search succeeds. */
  lemma FirstKeywordGroupReturned(t: string, i: nat, h: Hit)
    requires i < |Keywords|
    requires forall j :: 0 <= j < i ==> Search(t, Keywords[j], 0).None?
    requires Search(t, Keywords[i], 0) == Some(h)
    ensures Within(t, h.group) && FindOtp(t) == Some(Slice(t, h.group))
  {
    FirstHitAt(t, Keywords, i, 0);
    LocateShape(t);
  }

  /** In "code 123456" alternative 1 matches at 0, with the longest gap " 12". */
  lemma CodeSearch(t: string)
    requires t == "code 123456"
    ensures Search(t, Keywords[1], 0) == Some(Hit(0, Span(7, 4)))
  {
    var kw := Keywords[1];
    assert kw == "code";
    assert KeywordAt(t, kw, 0);
    assert GapThenDigits(t, 4, 3);
    assert KeywordFirstMatches(t, kw, 0);
    MatchAtMeaning(t, kw, 0);
    var g := MatchAt(t, kw, 0).value;
    assert g.start - 4 >= 3;
    assert g == Span(7, 4);
  }

  /** "code 123456": the filler after "code" is greedy, so it swallows " 12"
      and the group is the last four digits, "3456". */
  lemma CodeBeforeDigits(t: string)
    requires t == "code 123456"
    ensures FindOtp(t) == Some("3456")
  {
    assert Slice(t, Span(7, 4)) == "3456";
    OtpAbsent(t);
    assert forall j :: 0 <= j < 1 ==> Search(t, Keywords[j], 0).None?;
    CodeSearch(t);
    FirstKeywordGroupReturned(t, 1, Hit(0, Span(7, 4)));
  }

  /** In "123456 code" alternative 2 matches at 0 with all six digits. */
  lemma DigitsSearch(t: string)
    requires t == "123456 code"
    ensures Search(t, Keywords[1], 0) == Some(Hit(0, Span(0, 6)))
  {
    var kw := Keywords[1];
    assert kw == "code";
    assert !KeywordAt(t, kw, 0) by {
      assert Fold(t[0 + 0]) != Fold(kw[0]);
    }
    assert !KeywordFirstMatches(t, kw, 0);
    assert KeywordAt(t, kw, 7);
    assert GapThenKeyword(t, kw, 6, 1);
    assert DigitsThenKeyword(t, kw, 0, 6);
    MatchAtMeaning(t, kw, 0);
    var g := MatchAt(t, kw, 0).value;
    assert !IsDigit(t[6]);
    assert g == Span(0, 6);
  }

  /** "123456 code": alternative 1 cannot start before the keyword, so the
      digits-first alternative matches at 0 and captures all six digits. */
  lemma DigitsBeforeCode(t: string)
    requires t == "123456 code"
    ensures FindOtp(t) == Some("123456")
  {
    assert Slice(t, Span(0, 6)) == "123456";
    OtpAbsent(t);
    assert forall j :: 0 <= j < 1 ==> Search(t, Keywords[j], 0).None?;
    DigitsSearch(t);
    FirstKeywordGroupReturned(t, 1, Hit(0, Span(0, 6)));
  }
}
