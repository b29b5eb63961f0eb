/**
 * The newest-message step of the inbox watcher.
 *
 * Every unread message is paired with its parsed `Date` header (or nothing,
 * when the header does not parse), the pairs are sorted newest first with a
 * stable sort whose key is the date, or 0 for an unparsed one, and the first
 * pair's message is the one whose text is searched for an OTP.
 *
 * Dates are instants as integers; parsing the header is the parameter
 * `parseDate`. Python's `list.sort` is modelled by the one result a stable
 * descending sort can have, `SortNewestFirst`, not by its algorithm.
 */
module Inbox {
  import opened Wrappers
  import opened MessageText
  import opened OtpMatcher

  /** A fetched message paired with its parsed date. */
  datatype Dated<M> = Dated(date: Option<int>, msg: M)

  /** The sort key: the date, or 0 when there is none. */
  function SortKey<M>(e: Dated<M>): int {
    match e.date
    case Some(d) => d
    case None => 0
  }

  /** The fetched messages, each paired with its parsed date, in fetch order. */
  function Tag<M>(fetched: seq<M>, parseDate: M -> Option<int>): seq<Dated<M>> {
    seq(|fetched|, i requires 0 <= i < |fetched| => Dated(parseDate(fetched[i]), fetched[i]))
  }

  /** Either every date parsed or none did: the only case in which the
      sort key compares without error. */
  predicate UniformDates<M>(fetched: seq<M>, parseDate: M -> Option<int>) {
    || (forall i :: 0 <= i < |fetched| ==> parseDate(fetched[i]).Some?)
    || (forall i :: 0 <= i < |fetched| ==> parseDate(fetched[i]).None?)
  }

  // ---------------------------------------------------------------------------
  // The stable newest-first sort.

  /** Places `x` before the first element whose key is not greater than its
      own, so that `x` precedes the elements of `s` with an equal key. */
  function InsertNewest<M>(x: Dated<M>, s: seq<Dated<M>>): seq<Dated<M>> {
    if |s| == 0 || SortKey(s[0]) <= SortKey(x) then [x] + s
    else [s[0]] + InsertNewest(x, s[1..])
  }

  /** The list as it is after a stable sort by descending key. */
  function SortNewestFirst<M>(es: seq<Dated<M>>): seq<Dated<M>> {
    if |es| == 0 then [] else InsertNewest(es[0], SortNewestFirst(es[1..]))
  }

  /** Keys do not increase along `s`. */
  ghost predicate Descending<M>(s: seq<Dated<M>>) {
    forall i, j :: 0 <= i < j < |s| ==> SortKey(s[i]) >= SortKey(s[j])
  }

  ghost predicate AllAtMost<M>(s: seq<Dated<M>>, b: int) {
    forall i :: 0 <= i < |s| ==> SortKey(s[i]) <= b
  }

  /** The elements of `s` with key `k`, in their order in `s`. */
  function WithKey<M>(s: seq<Dated<M>>, k: int): seq<Dated<M>> {
    if |s| == 0 then []
    else (if SortKey(s[0]) == k then [s[0]] else []) + WithKey(s[1..], k)
  }

  lemma {:induction false} InsertPermutes<M>(x: Dated<M>, s: seq<Dated<M>>)
    ensures multiset(InsertNewest(x, s)) == multiset(s) + multiset{x}
  {
    if |s| > 0 && SortKey(s[0]) > SortKey(x) {
      InsertPermutes(x, s[1..]);
      assert s == [s[0]] + s[1..];
    }
  }

  /** The sort rearranges the list and neither adds nor drops an element. */
  lemma {:induction false} SortPermutes<M>(es: seq<Dated<M>>)
    ensures multiset(SortNewestFirst(es)) == multiset(es)
    ensures |SortNewestFirst(es)| == |es|
  {
    if |es| > 0 {
      SortPermutes(es[1..]);
      InsertPermutes(es[0], SortNewestFirst(es[1..]));
      assert es == [es[0]] + es[1..];
    }
  }

  lemma {:induction false} InsertAtMost<M>(x: Dated<M>, s: seq<Dated<M>>, b: int)
    requires AllAtMost(s, b) && SortKey(x) <= b
    ensures AllAtMost(InsertNewest(x, s), b)
  {
    if |s| > 0 && SortKey(s[0]) > SortKey(x) {
      InsertAtMost(x, s[1..], b);
    }
  }

  lemma {:induction false} InsertDescending<M>(x: Dated<M>, s: seq<Dated<M>>)
    requires Descending(s)
    ensures Descending(InsertNewest(x, s))
  {
    if |s| > 0 && SortKey(s[0]) > SortKey(x) {
      InsertDescending(x, s[1..]);
      InsertAtMost(x, s[1..], SortKey(s[0]));
      var r := InsertNewest(x, s[1..]);
      assert InsertNewest(x, s) == [s[0]] + r;
    }
  }

  /** The sorted list is newest first. */
  lemma {:induction false} SortDescending<M>(es: seq<Dated<M>>)
    ensures Descending(SortNewestFirst(es))
  {
    if |es| > 0 {
      SortDescending(es[1..]);
      InsertDescending(es[0], SortNewestFirst(es[1..]));
    }
  }

  lemma {:induction false} InsertWithKey<M>(x: Dated<M>, s: seq<Dated<M>>, k: int)
    ensures WithKey(InsertNewest(x, s), k)
         == (if SortKey(x) == k then [x] else []) + WithKey(s, k)
  {
    var r := InsertNewest(x, s);
    if |s| > 0 && SortKey(s[0]) > SortKey(x) {
      InsertWithKey(x, s[1..], k);
      assert r[0] == s[0] && r[1..] == InsertNewest(x, s[1..]);
    } else {
      assert r[0] == x && r[1..] == s;
    }
  }

  /** The sort is stable: the elements sharing a key keep their order. */
  lemma {:induction false} SortStable<M>(es: seq<Dated<M>>, k: int)
    ensures WithKey(SortNewestFirst(es), k) == WithKey(es, k)
  {
    if |es| > 0 {
      SortStable(es[1..], k);
      InsertWithKey(es[0], SortNewestFirst(es[1..]), k);
    }
  }

  // ---------------------------------------------------------------------------
  // Which message comes first.

  /** The first position holding a greatest key. */
  function NewestIndex<M>(es: seq<Dated<M>>): (i: nat)
    requires |es| > 0
    ensures i < |es|
  {
    if |es| == 1 then 0
    else
      var j := 1 + NewestIndex(es[1..]);
      if SortKey(es[j]) <= SortKey(es[0]) then 0 else j
  }

  /** `NewestIndex` holds a greatest key, and every earlier position a
      strictly smaller one. */
  lemma {:induction false} NewestIndexMeaning<M>(es: seq<Dated<M>>)
    requires |es| > 0
    ensures forall j :: 0 <= j < |es| ==> SortKey(es[j]) <= SortKey(es[NewestIndex(es)])
    ensures forall j :: 0 <= j < NewestIndex(es) ==> SortKey(es[j]) < SortKey(es[NewestIndex(es)])
  {
    if |es| > 1 {
      NewestIndexMeaning(es[1..]);
      var i := NewestIndex(es);
      forall j | 0 <= j < |es| ensures SortKey(es[j]) <= SortKey(es[i]) {
        if j > 0 {
          assert es[j] == es[1..][j - 1];
        }
      }
      forall j | 0 <= j < i ensures SortKey(es[j]) < SortKey(es[i]) {
        if j > 0 {
          assert es[j] == es[1..][j - 1];
        }
      }
    }
  }

  /** The head of the sorted list is the first message with a greatest key. */
  lemma {:induction false} SortedHead<M>(es: seq<Dated<M>>)
    requires |es| > 0
    ensures |SortNewestFirst(es)| == |es|
    ensures SortNewestFirst(es)[0] == es[NewestIndex(es)]
  {
    SortPermutes(es);
    if |es| > 1 {
      SortedHead(es[1..]);
      SortPermutes(es[1..]);
    }
  }

  /** With every date parsed, the chosen message has the latest date, and
      every message fetched before it an earlier one; with none parsed, the
      first message fetched is chosen. */
  lemma NewestSelected<M>(fetched: seq<M>, parseDate: M -> Option<int>)
    requires |fetched| > 0 && UniformDates(fetched, parseDate)
    ensures (forall i :: 0 <= i < |fetched| ==> parseDate(fetched[i]).Some?) ==>
      var n := NewestIndex(Tag(fetched, parseDate));
      && (forall j :: 0 <= j < |fetched| ==> parseDate(fetched[j]).value <= parseDate(fetched[n]).value)
      && (forall j :: 0 <= j < n ==> parseDate(fetched[j]).value < parseDate(fetched[n]).value)
    ensures (forall i :: 0 <= i < |fetched| ==> parseDate(fetched[i]).None?) ==>
      NewestIndex(Tag(fetched, parseDate)) == 0
  {
    var es := Tag(fetched, parseDate);
    assert |es| == |fetched|;
    assert forall j :: 0 <= j < |es| ==> es[j] == Dated(parseDate(fetched[j]), fetched[j]);
    NewestIndexMeaning(es);
    var n := NewestIndex(es);
    assert SortKey(es[0]) <= SortKey(es[n]);
  }

  // ---------------------------------------------------------------------------
  // The watcher's selection step.

  /** Pairs every fetched message with its date, sorts the pairs newest
      first and returns the first pair's message. */
  method LatestMessage<M>(fetched: seq<M>, parseDate: M -> Option<int>) returns (latest: M)
    requires |fetched| > 0
    requires UniformDates(fetched, parseDate)
    ensures latest == fetched[NewestIndex(Tag(fetched, parseDate))]
  {
    var emailsWithDate: seq<Dated<M>> := [];
    for n := 0 to |fetched|
      invariant |emailsWithDate| == n
      invariant forall i :: 0 <= i < n ==> emailsWithDate[i] == Dated(parseDate(fetched[i]), fetched[i])
    {
      var msg := fetched[n];
      var dateObj := parseDate(msg);
      emailsWithDate := emailsWithDate + [Dated(dateObj, msg)];
    }
    assert emailsWithDate == Tag(fetched, parseDate);
    SortedHead(emailsWithDate);
    emailsWithDate := SortNewestFirst(emailsWithDate);
    latest := emailsWithDate[0].msg;
  }

  /** One pass over a non-empty batch of unread messages: the OTP found in
      the text of the newest one, if any. */
  method CheckNewest(fetched: seq<Message>, parseDate: Message -> Option<int>, stripHtml: string -> string)
    returns (otp: Option<string>)
    requires |fetched| > 0
    requires UniformDates(fetched, parseDate)
    ensures otp == FindOtp(BodyText(fetched[NewestIndex(Tag(fetched, parseDate))], stripHtml))
    ensures otp.Some? ==> MinDigits <= |otp.value| <= MaxDigits && AllDigits(otp.value)
  {
    var latestMsg := LatestMessage(fetched, parseDate);
    var text := ExtractText(latestMsg, stripHtml);
    otp := FindOtp(text);
    FindOtpShape(text);
  }
}
