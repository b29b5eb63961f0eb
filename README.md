# OTP extractor: a verified model of its core

The OTP extractor reads unread mail over IMAP, picks the newest message and
extracts its body text. It then looks for a one-time password in that text.
Here is what each piece does:

- `find_otp` tries each keyword of `["otp", "code", "pin", "password", "verification"]` in order.
  - It searches case-insensitively for `kw.{0,30}(\d{4,8})|(\d{4,8}).{0,30}kw`.
  - The first keyword whose search succeeds gives the captured digits.
  - If none succeeds, the leftmost standalone six-digit number `\b\d{6}\b` is the result.
  - Otherwise there is no OTP.
- `extract_text` walks a multipart message in pre-order.
  - It appends text/plain payloads to one buffer.
  - It appends text/html payloads, after HTML stripping, to another.
  - It returns the plain buffer unless that buffer holds only whitespace; then it returns the HTML buffer.
  - A message that is not multipart gives its payload as plain text.
- The watcher pairs every fetched message with its parsed `Date` header.
  - It sorts the pairs newest first with Python's stable `list.sort`.
  - It passes the first message to `extract_text` and `find_otp`.

The modules are laid out as follows:

- `otp_matcher.dfy` (module `OtpMatcher`) holds the matcher.
  - It is written as the backtracking order of a leftmost-first regular-expression engine:
    - start positions are tried left to right;
    - at each start, alternative 1 is tried before alternative 2;
    - every bounded repetition is greedy.
  - Each search function is given its meaning by a lemma, in terms of declarative predicates saying what the pattern matches.
- `otp_properties.dfy` (module `OtpProperties`) proves the matcher's properties:
  - leftmost search;
  - keyword priority by list order;
  - proximity of the keyword;
  - when the fallback applies;
  - ASCII case-insensitivity.
- `otp_examples.dfy` (module `OtpExamples`) works through concrete inputs.
- `message_text.dfy` (module `MessageText`) models `extract_text`.
  - It is a method with the source's loop.
  - The method is specified by the buffer functions.
  - Those functions are tied to a structural reference definition.
- `inbox.dfy` (module `Inbox`) models the newest-message step.
  - It contains the append loop.
  - It contains the result of the stable descending sort, with its properties: sorted, a permutation, and stable.
  - It shows which message is chosen.
- `wrappers.dfy` holds `Option`.

Two behaviours of the code are easy to misread, and the model follows the code in both:

- For `"code 123456"` the greedy filler `.{0,30}` takes `" 12"`, so the OTP is `"3456"`, not `"123456"`.
  - Lemma `OtpExamples.CodeBeforeDigits` proves this.
  - In the same way, "Your verification pin is: 483920" gives "3920".
- When some `Date` headers parse and others do not, the sort key compares a datetime with 0.
  - That raises `TypeError`; it does not sort undated messages last.
  - The model requires the dates to be uniform; see below.

## Model

| member | source | states |
|---|---|---|
| OtpMatcher.GreedyDigitsMeaning | Layman_otp_extractor.py:46 | `\d{4,8}` at a position takes the longest digit run of at most eight, at least four, or fails when fewer than four digits start there |
| OtpMatcher.GapThenDigitsFromMeaning | Layman_otp_extractor.py:46 | the greedy filler `.{0,30}` after the keyword settles on the longest newline-free gap that four digits follow; the group there is the greedy digit window; failure means no gap length works |
| OtpMatcher.KeywordFirstMeaning | Layman_otp_extractor.py:46-47 | alternative 1 matches at a start exactly when the keyword is there and some gap of at most 30 non-newline characters is followed by four digits; its capture uses the longest such gap |
| OtpMatcher.DigitsFirstFromMeaning | Layman_otp_extractor.py:46 | the greedy `(\d{4,8})` of alternative 2 takes the longest digit run of at most m that the keyword follows within the gap; failure means no such run |
| OtpMatcher.DigitsFirstMeaning | Layman_otp_extractor.py:46-47 | alternative 2 matches at a start exactly when four to eight digits start there and the keyword follows within 30 non-newline characters; it captures the longest such run |
| OtpMatcher.MatchAtMeaning | Layman_otp_extractor.py:46-49 | the pattern matches at a start exactly when one alternative does; alternative 1 wins when both match; the group (`group(1) or group(2)`) lies in the text |
| OtpMatcher.SearchHitIsMatch | Layman_otp_extractor.py:47 | a successful `re.search` reports a start at or after the search origin where the pattern matches, with that start's group |
| OtpMatcher.FirstKeywordHitMeaning | Layman_otp_extractor.py:45-51 | the keyword loop stops at the first keyword, in list order, whose search succeeds, and every earlier search failed; it finds nothing exactly when every search fails |
| OtpMatcher.FallbackSearchMeaning | Layman_otp_extractor.py:54-57 | the fallback search finds nothing exactly when no standalone six-digit run occurs; otherwise it finds the leftmost one |
| OtpMatcher.LocateShape | Layman_otp_extractor.py:43-61 | a located candidate lies in the text, consists of four to eight digits and names a keyword of the list when found near a keyword |
| OtpMatcher.FindOtpShape | Layman_otp_extractor.py:43-61 | `find_otp` returns None or a string of four to eight ASCII digits that occurs in the text |
| OtpProperties.SearchMisses | Layman_otp_extractor.py:47 | when the search fails, the pattern matches at no position of the text |
| OtpProperties.SearchHit | Layman_otp_extractor.py:47 | when the search succeeds, the pattern matches at the reported position |
| OtpProperties.SearchNothingEarlier | Layman_otp_extractor.py:47 | when the search succeeds, the pattern matches at no earlier position |
| OtpProperties.SearchLeftmost | Layman_otp_extractor.py:47 | `re.search` is leftmost: it fails exactly when nothing matches, and otherwise reports the first matching position |
| OtpProperties.SearchesMiss | Layman_otp_extractor.py:45-51 | every keyword search fails exactly when no keyword pattern matches anywhere in the text |
| OtpProperties.FirstHitAt | Layman_otp_extractor.py:45-51 | if keyword i is the first from some point on whose search succeeds, the loop returns keyword i's hit |
| OtpProperties.KeywordPriority | Layman_otp_extractor.py:45-51 | a keyword result comes from a list keyword whose pattern matches at the reported start, matches nowhere earlier, and no earlier keyword's pattern matches anywhere; its group is the match's group |
| OtpProperties.FallbackOnlyWithoutKeyword | Layman_otp_extractor.py:45-59 | the fallback is used, or nothing is found, exactly when no keyword pattern matches |
| OtpProperties.PriorityByListOrder | Layman_otp_extractor.py:45-51 | when keyword i's pattern matches and no earlier keyword's does, the result comes from keyword i |
| OtpProperties.LaterKeywordsIgnored | Layman_otp_extractor.py:48-51 | the keywords after the first successful one are never consulted: any list agreeing up to it gives the same result |
| OtpProperties.CaptureNearKeyword | Layman_otp_extractor.py:46 | the captured digits have an occurrence of the keyword within 30 non-newline characters before or after them |
| OtpProperties.KeywordProximity | Layman_otp_extractor.py:45-51 | a keyword result lies within 30 non-newline characters of an occurrence of its keyword |
| OtpProperties.StandaloneSixMeaning | Layman_otp_extractor.py:54 | `\b\d{6}\b` at a position means six digits with no word character immediately before or after |
| OtpProperties.FallbackLeftmostSix | Layman_otp_extractor.py:53-61 | with no keyword match, the result is None exactly when no standalone six-digit run occurs, and otherwise the leftmost one |
| OtpProperties.LowerAt | Layman_otp_extractor.py:47 | the lower-cased text keeps the length and folds every ASCII capital |
| OtpProperties.LowerLength | Layman_otp_extractor.py:47 | lower-casing keeps the length |
| OtpProperties.FoldKeepsClasses | Layman_otp_extractor.py:46-47 | characters equal up to case agree on being a digit (and are then equal), a newline and a word character |
| OtpProperties.SameFold | Layman_otp_extractor.py:47 | texts equal up to case have the same length and fold alike at every position |
| OtpProperties.SameClasses | Layman_otp_extractor.py:46-47 | texts equal up to case agree position by position on digits, newlines and word characters |
| OtpProperties.DigitsAgree | Layman_otp_extractor.py:46 | `\d` runs are the same in texts equal up to case |
| OtpProperties.GapAgree | Layman_otp_extractor.py:46 | the `.` gaps are the same in texts equal up to case |
| OtpProperties.KeywordAgree | Layman_otp_extractor.py:47 | a keyword occurs case-insensitively at the same positions of texts equal up to case |
| OtpProperties.WordAgree | Layman_otp_extractor.py:54 | word characters sit at the same positions of texts equal up to case |
| OtpProperties.KeywordFollowsAgree | Layman_otp_extractor.py:46 | the keyword follows within the gap in one text exactly when it does in the other |
| OtpProperties.GreedyDigitsAgree | Layman_otp_extractor.py:46 | the greedy digit run is the same in texts equal up to case |
| OtpProperties.GapThenDigitsFromAgree | Layman_otp_extractor.py:46 | the greedy gap and digits after a keyword are the same in texts equal up to case |
| OtpProperties.DigitsFirstFromAgree | Layman_otp_extractor.py:46 | alternative 2's greedy digits are the same in texts equal up to case |
| OtpProperties.KeywordFirstAgree | Layman_otp_extractor.py:46-47 | alternative 1 gives the same group in texts equal up to case |
| OtpProperties.MatchAtAgree | Layman_otp_extractor.py:46-49 | the pattern gives the same group at every start in texts equal up to case |
| OtpProperties.SearchAgree | Layman_otp_extractor.py:47 | `re.search` with IGNORECASE gives the same hit in texts equal up to case |
| OtpProperties.FirstKeywordHitAgree | Layman_otp_extractor.py:45-51 | the keyword loop stops at the same keyword with the same hit in texts equal up to case |
| OtpProperties.SixAgree | Layman_otp_extractor.py:54 | standalone six-digit runs sit at the same positions of texts equal up to case |
| OtpProperties.FallbackSearchAgree | Layman_otp_extractor.py:54-55 | the fallback gives the same position in texts equal up to case |
| OtpProperties.CaseInsensitive | Layman_otp_extractor.py:43-61 | texts equal up to ASCII case yield the same candidate and the same OTP |
| OtpExamples.SearchNeedsKeyword | Layman_otp_extractor.py:46-47 | a keyword search can succeed only where the keyword occurs |
| OtpExamples.OtpAbsent | Layman_otp_extractor.py:15 | "otp" does not occur in "code 123456" or "123456 code" |
| OtpExamples.EightDigitsGiveNone | Layman_otp_extractor.py:43-61 | "12345678" has no keyword and no standalone six digits, so there is no OTP |
| OtpExamples.FirstKeywordGroupReturned | Layman_otp_extractor.py:45-51 | the OTP is the group of the first keyword, in list order, whose search succeeds |
| OtpExamples.CodeSearch | Layman_otp_extractor.py:46-47 | in "code 123456" the "code" pattern matches at 0 with the group at 7 of length 4 |
| OtpExamples.CodeBeforeDigits | Layman_otp_extractor.py:43-51 | "code 123456" gives "3456", because the filler is greedy |
| OtpExamples.DigitsSearch | Layman_otp_extractor.py:46-47 | in "123456 code" the "code" pattern matches at 0 with all six digits |
| OtpExamples.DigitsBeforeCode | Layman_otp_extractor.py:43-51 | "123456 code" gives "123456" |
| MessageText.TrimStartShape | Layman_otp_extractor.py:41 | trimming the front removes a whitespace prefix and stops at a non-whitespace character |
| MessageText.TrimEndShape | Layman_otp_extractor.py:41 | trimming the back removes a whitespace suffix and stops at a non-whitespace character |
| MessageText.StripEmptyIffBlank | Layman_otp_extractor.py:41 | `s.strip()` is empty exactly when every character of `s` is Python whitespace |
| MessageText.ExtractText | Layman_otp_extractor.py:23-41 | the loop over the walk fills the plain and HTML buffers; the method returns the plain buffer unless it is blank, then the HTML buffer; a non-multipart message gives its payload |
| MessageText.BuffersAppend | Layman_otp_extractor.py:28-37 | the buffers for a walk split at any point are the concatenations of the buffers of its halves |
| MessageText.WalkBuffers | Layman_otp_extractor.py:27-37 | the buffers filled along the pre-order walk are a tree's text/plain payloads, and its stripped text/html payloads, in document order |
| MessageText.WalkAllBuffers | Layman_otp_extractor.py:27-37 | the same for a sequence of parts: each part's subtree is visited whole, before the next part |
| MessageText.MultipartBody | Layman_otp_extractor.py:27-41 | a multipart message gives its concatenated text/plain payloads when they are not blank, and otherwise its concatenated stripped text/html payloads |
| MessageText.SinglePartBody | Layman_otp_extractor.py:38-41 | a non-multipart message gives its payload whatever its content type, or "" when the payload is only whitespace |
| MessageText.IgnoredNode | Layman_otp_extractor.py:29-37 | a walked node that has an empty payload, is a container, or has another content type adds nothing to either buffer |
| MessageText.StripperUnusedWithPlainText | Layman_otp_extractor.py:37-41 | the HTML stripper does not affect the result when the message is single-part or its plain text is not blank |
| Inbox.InsertPermutes | Layman_otp_extractor.py:86 | inserting an element into the sorted list adds exactly that element |
| Inbox.SortPermutes | Layman_otp_extractor.py:86 | the sort neither adds nor drops an element and keeps the length |
| Inbox.InsertAtMost | Layman_otp_extractor.py:86 | inserting an element keyed at most b into a list keyed at most b keeps every key at most b |
| Inbox.InsertDescending | Layman_otp_extractor.py:86 | inserting into a newest-first list keeps it newest first |
| Inbox.SortDescending | Layman_otp_extractor.py:86 | after `sort(key=..., reverse=True)` the keys never increase along the list |
| Inbox.InsertWithKey | Layman_otp_extractor.py:86 | the inserted element comes before every element with an equal key |
| Inbox.SortStable | Layman_otp_extractor.py:86 | the sort is stable under `reverse=True`: elements with equal keys keep their fetch order |
| Inbox.NewestIndexMeaning | Layman_otp_extractor.py:86-89 | the chosen position holds a greatest key and every earlier position a strictly smaller one |
| Inbox.SortedHead | Layman_otp_extractor.py:86-89 | the head of the sorted list is the first-fetched message with a greatest key |
| Inbox.NewestSelected | Layman_otp_extractor.py:73-89 | with every date parsed, the chosen message has the latest date and every message fetched before it an earlier one; with no date parsed, the first message fetched is chosen |
| Inbox.LatestMessage | Layman_otp_extractor.py:73-89 | the append loop and the sort pick the first-fetched message with a greatest date key |
| Inbox.CheckNewest | Layman_otp_extractor.py:73-91 | one pass returns `find_otp(extract_text(newest))`, which is None or four to eight digits |

## Left out

- The IMAP session and the polling loop are not modelled: login, `get_unread`, `fetch`, `time.sleep` with `CHECK_INTERVAL`, and the empty-inbox retry. The fetched batch is the non-empty parameter `fetched`.
- The GUI thread, `tkinter` and `messagebox`, the clipboard (`pyperclip`) and `print` are output only; their effects are not modelled.
- Parsing the raw message is not modelled: `message_from_bytes` and `get_content_type` are replaced by a given `Message` tree.
- Payload decoding is not modelled: payloads are the already-decoded strings, so whether a payload is empty is judged on the decoded string rather than on the bytes. A non-empty payload that decodes to nothing would add `stripHtml("")` to the HTML buffer in the source; in the model it adds nothing.
- HTML stripping with BeautifulSoup is the uninterpreted parameter `stripHtml`.
- Date parsing with `parsedate_to_datetime` is the parameter `parseDate`. It gives an instant as an integer, or nothing when the header does not parse.
- Inbox.LatestMessage: requires that every date parsed or none did. With a mix, the source's sort key compares a datetime with 0 and raises `TypeError`. Mixing naive and aware datetimes also raises; this is not represented.
- Inbox.SortNewestFirst models the result of Python's `list.sort`, not its algorithm. That result is the unique stable descending arrangement, and it is assigned where the source sorts in place.
- Regular expressions are modelled over ASCII only. `\d` is '0'..'9', `\w` is ASCII letters, digits and '_', and IGNORECASE folds 'A'..'Z'. Python's Unicode digits, word characters and case folding (for example the Kelvin sign) are not modelled.
- The regular expression engine in general is not modelled; only the two fixed patterns of `find_otp` are written out as the engine's order of attempts.
