/**
 * The body-text selection `extract_text`.
 *
 * A message is a tree: a multipart node has a content type and its parts, a
 * leaf has a content type and its payload, already decoded to a string. A
 * multipart message is walked in pre-order; text/plain payloads are appended
 * to one buffer and text/html payloads, after HTML stripping, to another. The
 * plain buffer is the result unless it holds only whitespace, in which case
 * the HTML buffer is. A message that is not multipart gives its payload as
 * plain text, whatever its content type.
 *
 * HTML stripping is a parameter `stripHtml`: the model does not interpret it.
 */
module MessageText {

  datatype Message =
    | Leaf(contentType: string, payload: string)
    | Multipart(contentType: string, parts: seq<Message>)

  // ---------------------------------------------------------------------------
  // Python's `str.isspace` and `str.strip()`.

  /** The characters Python counts as whitespace. */
  predicate IsSpace(c: char) {
    || '\t' <= c <= '\r'
    || '\U{1C}' <= c <= ' '
    || c == '\U{85}' || c == '\U{A0}' || c == '\U{1680}'
    || '\U{2000}' <= c <= '\U{200A}'
    || c == '\U{2028}' || c == '\U{2029}' || c == '\U{202F}' || c == '\U{205F}' || c == '\U{3000}'
  }

  ghost predicate IsBlank(s: string) {
    forall i :: 0 <= i < |s| ==> IsSpace(s[i])
  }

  function TrimStart(s: string): string {
    if |s| > 0 && IsSpace(s[0]) then TrimStart(s[1..]) else s
  }

  function TrimEnd(s: string): string {
    if |s| > 0 && IsSpace(s[|s| - 1]) then TrimEnd(s[..|s| - 1]) else s
  }

  /** `s.strip()`: `s` without its leading and trailing whitespace. */
  function Strip(s: string): string {
    TrimEnd(TrimStart(s))
  }

  /** Trimming the front drops a blank prefix and stops at a non-whitespace character. */
  lemma {:induction false} TrimStartShape(s: string)
    ensures exists k :: 0 <= k <= |s| && TrimStart(s) == s[k..] && IsBlank(s[..k])
    ensures TrimStart(s) == [] || !IsSpace(TrimStart(s)[0])
  {
    if |s| > 0 && IsSpace(s[0]) {
      TrimStartShape(s[1..]);
      var k :| 0 <= k <= |s[1..]| && TrimStart(s[1..]) == s[1..][k..] && IsBlank(s[1..][..k]);
      assert TrimStart(s) == s[k + 1..];
      var prefix := s[..k + 1];
      forall i | 0 <= i < |prefix| ensures IsSpace(prefix[i]) {
        if i > 0 {
          assert prefix[i] == s[1..][..k][i - 1];
        }
      }
    } else {
      assert TrimStart(s) == s[0..] && IsBlank(s[..0]);
    }
  }

  /** Trimming the back drops a blank suffix and stops at a non-whitespace character. */
  lemma {:induction false} TrimEndShape(s: string)
    ensures exists k :: 0 <= k <= |s| && TrimEnd(s) == s[..k] && IsBlank(s[k..])
    ensures TrimEnd(s) == [] || !IsSpace(TrimEnd(s)[|TrimEnd(s)| - 1])
  {
    if |s| > 0 && IsSpace(s[|s| - 1]) {
      var s' := s[..|s| - 1];
      TrimEndShape(s');
      var k :| 0 <= k <= |s'| && TrimEnd(s') == s'[..k] && IsBlank(s'[k..]);
      assert TrimEnd(s) == s[..k];
      assert IsBlank(s[k..]) by {
        forall i | 0 <= i < |s| - k ensures IsSpace(s[k..][i]) {
          if k + i < |s| - 1 {
            assert s[k..][i] == s'[k..][i];
          }
        }
      }
    } else {
      assert TrimEnd(s) == s[..|s|] && IsBlank(s[|s|..]);
    }
  }

  /** `s.strip()` is empty exactly when `s` holds only whitespace. */
  lemma StripEmptyIffBlank(s: string)
    ensures Strip(s) == [] <==> IsBlank(s)
  {
    TrimStartShape(s);
    var k :| 0 <= k <= |s| && TrimStart(s) == s[k..] && IsBlank(s[..k]);
    TrimEndShape(s[k..]);
    var e :| 0 <= e <= |s[k..]| && TrimEnd(s[k..]) == s[k..][..e] && IsBlank(s[k..][e..]);
    if Strip(s) == [] {
      assert e == 0;
      assert k == |s|;
      forall i | 0 <= i < |s| ensures IsSpace(s[i]) {
        assert s[i] == s[..k][i];
      }
    } else {
      assert TrimStart(s) != [];
      assert !IsSpace(s[k]);
    }
  }

  // ---------------------------------------------------------------------------
  // The walk and the two buffers.

  /** `msg.walk()`: the node itself, then the walks of its parts in order. */
  function Walk(m: Message): seq<Message>
    decreases m, 1
  {
    match m
    case Leaf(_, _) => [m]
    case Multipart(_, ps) => [m] + WalkAll(ps)
  }

  function WalkAll(ps: seq<Message>): seq<Message>
    decreases ps, 0
  {
    if |ps| == 0 then [] else Walk(ps[0]) + WalkAll(ps[1..])
  }

  /** A walked node with a non-empty payload of the given content type; a
      multipart node has no payload of its own. */
  predicate Contributes(n: Message, contentType: string) {
    n.Leaf? && n.payload != "" && n.contentType == contentType
  }

  /** The plain buffer after the loop has seen `nodes`. */
  function PlainOf(nodes: seq<Message>): string {
    if |nodes| == 0 then ""
    else
      var n := nodes[|nodes| - 1];
      PlainOf(nodes[..|nodes| - 1]) + (if Contributes(n, "text/plain") then n.payload else "")
  }

  /** The HTML buffer after the loop has seen `nodes`. */
  function HtmlOf(nodes: seq<Message>, stripHtml: string -> string): string {
    if |nodes| == 0 then ""
    else
      var n := nodes[|nodes| - 1];
      HtmlOf(nodes[..|nodes| - 1], stripHtml) + (if Contributes(n, "text/html") then stripHtml(n.payload) else "")
  }

  /** The text `extract_text` returns. */
  function BodyText(m: Message, stripHtml: string -> string): string {
    match m
    case Leaf(_, p) => if Strip(p) != "" then p else ""
    case Multipart(_, _) =>
      var plain := PlainOf(Walk(m));
      if Strip(plain) != "" then plain else HtmlOf(Walk(m), stripHtml)
  }

  /** `extract_text(msg)`. */
  method ExtractText(msg: Message, stripHtml: string -> string) returns (text: string)
    ensures text == BodyText(msg, stripHtml)
  {
    var plainText := "";
    var htmlText := "";
    if msg.Multipart? {
      var nodes := Walk(msg);
      for i := 0 to |nodes|
        invariant plainText == PlainOf(nodes[..i])
        invariant htmlText == HtmlOf(nodes[..i], stripHtml)
      {
        var part := nodes[i];
        assert nodes[..i + 1][..i] == nodes[..i];
        if part.Multipart? || part.payload == "" {
          continue;
        }
        if part.contentType == "text/plain" {
          plainText := plainText + part.payload;
        } else if part.contentType == "text/html" {
          htmlText := htmlText + stripHtml(part.payload);
        }
      }
      assert nodes[..|nodes|] == nodes;
    } else {
      plainText := msg.payload;
    }
    text := if Strip(plainText) != "" then plainText else htmlText;
  }

  // ---------------------------------------------------------------------------
  // What the buffers hold.

  /** The text/plain payloads of a tree in document order: a reference
      definition by structural recursion, independent of the walk. */
  function PlainText(m: Message): string
    decreases m, 1
  {
    match m
    case Leaf(_, _) => if Contributes(m, "text/plain") then m.payload else ""
    case Multipart(_, ps) => PlainTexts(ps)
  }

  function PlainTexts(ps: seq<Message>): string
    decreases ps, 0
  {
    if |ps| == 0 then "" else PlainText(ps[0]) + PlainTexts(ps[1..])
  }

  /** The stripped text/html payloads of a tree in document order. */
  function HtmlText(m: Message, stripHtml: string -> string): string
    decreases m, 1
  {
    match m
    case Leaf(_, _) => if Contributes(m, "text/html") then stripHtml(m.payload) else ""
    case Multipart(_, ps) => HtmlTexts(ps, stripHtml)
  }

  function HtmlTexts(ps: seq<Message>, stripHtml: string -> string): string
    decreases ps, 0
  {
    if |ps| == 0 then "" else HtmlText(ps[0], stripHtml) + HtmlTexts(ps[1..], stripHtml)
  }

  /** The buffers of a walk split at any point are the buffers of its halves. */
  lemma {:induction false} BuffersAppend(a: seq<Message>, b: seq<Message>, stripHtml: string -> string)
    decreases |b|
    ensures PlainOf(a + b) == PlainOf(a) + PlainOf(b)
    ensures HtmlOf(a + b, stripHtml) == HtmlOf(a, stripHtml) + HtmlOf(b, stripHtml)
  {
    if |b| > 0 {
      var b' := b[..|b| - 1];
      assert (a + b)[..|a + b| - 1] == a + b';
      assert (a + b)[|a + b| - 1] == b[|b| - 1];
      BuffersAppend(a, b', stripHtml);
    } else {
      assert a + b == a;
    }
  }

  /** Walking a tree and filling the buffers gives its payloads in document
      order: the walk visits each part's subtree whole, before the next part. */
  lemma {:induction false} WalkBuffers(m: Message, stripHtml: string -> string)
    decreases m, 1
    ensures PlainOf(Walk(m)) == PlainText(m)
    ensures HtmlOf(Walk(m), stripHtml) == HtmlText(m, stripHtml)
  {
    match m
    case Leaf(_, _) =>
      assert [m][..0] == [];
    case Multipart(_, ps) =>
      BuffersAppend([m], WalkAll(ps), stripHtml);
      assert [m][..0] == [];
      WalkAllBuffers(ps, stripHtml);
  }

  lemma {:induction false} WalkAllBuffers(ps: seq<Message>, stripHtml: string -> string)
    decreases ps, 0
    ensures PlainOf(WalkAll(ps)) == PlainTexts(ps)
    ensures HtmlOf(WalkAll(ps), stripHtml) == HtmlTexts(ps, stripHtml)
  {
    if |ps| > 0 {
      BuffersAppend(Walk(ps[0]), WalkAll(ps[1..]), stripHtml);
      WalkBuffers(ps[0], stripHtml);
      WalkAllBuffers(ps[1..], stripHtml);
    }
  }

  /** For a multipart message the result is the concatenated text/plain
      payloads when they hold a non-whitespace character, and otherwise the
      concatenated stripped text/html payloads. */
  lemma MultipartBody(m: Message, stripHtml: string -> string)
    requires m.Multipart?
    ensures !IsBlank(PlainText(m)) ==> BodyText(m, stripHtml) == PlainText(m)
    ensures IsBlank(PlainText(m)) ==> BodyText(m, stripHtml) == HtmlText(m, stripHtml)
  {
    WalkBuffers(m, stripHtml);
    StripEmptyIffBlank(PlainText(m));
  }

  /** A message that is not multipart gives its payload as plain text, even
      when its content type is text/html, and gives "" when the payload is
      only whitespace. */
  lemma SinglePartBody(ct: string, p: string, stripHtml: string -> string)
    ensures !IsBlank(p) ==> BodyText(Leaf(ct, p), stripHtml) == p
    ensures IsBlank(p) ==> BodyText(Leaf(ct, p), stripHtml) == ""
  {
    StripEmptyIffBlank(p);
  }

  /** A node that is not a non-empty text/plain or text/html leaf adds
      nothing to either buffer, wherever it is walked. */
  lemma IgnoredNode(a: seq<Message>, n: Message, b: seq<Message>, stripHtml: string -> string)
    requires !Contributes(n, "text/plain") && !Contributes(n, "text/html")
    ensures PlainOf(a + [n] + b) == PlainOf(a + b)
    ensures HtmlOf(a + [n] + b, stripHtml) == HtmlOf(a + b, stripHtml)
  {
    BuffersAppend(a + [n], b, stripHtml);
    BuffersAppend(a, [n], stripHtml);
    BuffersAppend(a, b, stripHtml);
    assert [n][..0] == [];
  }

  /** HTML stripping is consulted only when the plain text is blank. */
  lemma StripperUnusedWithPlainText(m: Message, f: string -> string, g: string -> string)
    requires m.Leaf? || !IsBlank(PlainText(m))
    ensures BodyText(m, f) == BodyText(m, g)
  {
    if m.Multipart? {
      MultipartBody(m, f);
      MultipartBody(m, g);
    }
  }
}
