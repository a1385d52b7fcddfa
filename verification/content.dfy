/**
 * The message content, `body['content']`: a list of `{type, value}` parts.
 */
module Content {
  import opened Php
  import opened Body

  /** What the host hands over: one string, or an array that may hold a
      `text` and an `html` version under those keys. */
  datatype MailContent = Single(value: string) | Versions(parts: map<string, string>)

  /** PHP's `empty()` on the content. */
  predicate EmptyContent(c: MailContent) {
    match c
    case Single(v) => EmptyString(v)
    case Versions(parts) => |parts| == 0
  }

  /** `! empty( $content[key] )`. */
  predicate Given(parts: map<string, string>, key: string) {
    key in parts && !EmptyString(parts[key])
  }

  function KeyOf(kind: PartType): string {
    match kind
    case TextPart => "text"
    case HtmlPart => "html"
  }

  /** The content parts built from non-empty content. A single string gives
      one part, plain text exactly when the message's content type is
      `text/plain`. An array gives its non-empty `text` version, then its
      non-empty `html` version: text first, no type twice. */
  function ContentParts(c: MailContent, contentType: string): (r: seq<Part>)
    requires !EmptyContent(c)
    ensures c.Single? ==> |r| == 1 && r[0].value == c.value
                          && (r[0].kind == TextPart <==> contentType == "text/plain")
    ensures c.Versions? ==>
              && |r| <= 2
              && (forall i :: 0 <= i < |r| ==>
                    Given(c.parts, KeyOf(r[i].kind)) && r[i].value == c.parts[KeyOf(r[i].kind)])
              && (forall i :: 0 < i < |r| ==> r[i].kind != TextPart)
              && (forall i, j :: 0 <= i < j < |r| ==> r[i].kind != r[j].kind)
              && (Given(c.parts, "text") <==> |r| > 0 && r[0].kind == TextPart)
              && (Given(c.parts, "html") <==> |r| > 0 && r[|r| - 1].kind == HtmlPart)
  {
    match c
    case Single(v) => [Part(if contentType == "text/plain" then TextPart else HtmlPart, v)]
    case Versions(parts) =>
      (if Given(parts, "text") then [Part(TextPart, parts["text"])] else [])
      + (if Given(parts, "html") then [Part(HtmlPart, parts["html"])] else [])
  }

  /** `set_content`: empty content changes nothing; otherwise `content` is
      set to the parts and no other key changes. */
  function SetContent(body: Request, c: MailContent, contentType: string): (r: Request)
    ensures EmptyContent(c) ==> r == body
    ensures !EmptyContent(c) ==> "content" in r && r["content"] == PartList(ContentParts(c, contentType))
    ensures forall k :: k != "content" ==> Untouched(body, r, k)
  {
    if EmptyContent(c) then body
    else SetBodyParam(body, map["content" := PartList(ContentParts(c, contentType))])
  }
}
