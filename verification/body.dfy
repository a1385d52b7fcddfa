/**
 * The request body the mailer assembles for the vendor's JSON API: a map
 * from top-level keys to values, before JSON encoding.
 */
module Body {
  import opened Php

  /** One entry of `body['headers']`: `{name, value}`. */
  datatype Header = Header(name: string, value: Scalar)

  datatype PartType = TextPart | HtmlPart

  /** One entry of `body['content']`: `{type, value}` with type "text" or "html". */
  datatype Part = Part(kind: PartType, value: string)

  /** One entry of `body['attachments']`: base64 content and a file name. */
  datatype FileEntry = FileEntry(content: string, name: string)

  datatype Field =
    | Param(s: string)
    | HeaderList(headers: seq<Header>)
    | PartList(parts: seq<Part>)
    | FileList(files: seq<FileEntry>)

  /** The request body: its top-level keys and their values. */
  type Request = map<string, Field>

  /** The host's `set_body_param`: merge the given keys into the body, the
      new values replacing old ones under the same key. */
  function SetBodyParam(body: Request, param: map<string, Field>): (r: Request)
    ensures r.Keys == body.Keys + param.Keys
    ensures forall k :: k in param ==> r[k] == param[k]
    ensures forall k :: k in body && k !in param ==> r[k] == body[k]
  {
    body + param
  }

  /** A key whose presence and value are the same in both bodies. */
  predicate Untouched(before: Request, after: Request, k: string) {
    && (k in after <==> k in before)
    && (k in before ==> after[k] == before[k])
  }

  /** Writing a key twice leaves only the second value. */
  lemma Overwrite<K, V>(m: map<K, V>, k: K, a: V, b: V)
    ensures m[k := a][k := b] == m[k := b]
  {
  }
}
