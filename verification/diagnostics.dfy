/**
 * What the mailer reports about itself: the error text it derives from a
 * failed API response, and whether its settings are complete.
 */
module Diagnostics {
  import opened Php
  import opened Seqs

  /** One element of an error list in the decoded response; each property
      may be missing. */
  datatype ErrorItem = ErrorItem(description: Option<string>, message: Option<string>, field: Option<string>)

  /** A non-empty `error` value of the decoded response. `Other` stands for
      any value that is neither a string nor an array, such as an object. */
  datatype ErrorValue = Text(s: string) | Items(items: seq<ErrorItem>) | Other

  /** The decoded response body: its `error` and `info` properties. */
  datatype Decoded = Decoded(error: Option<ErrorValue>, info: Option<string>)

  /** `! empty( $x ) ? $x : $fallback` for a string property. */
  function OrElse(v: Option<string>, fallback: string): string {
    if v.Some? && !EmptyString(v.value) then v.value else fallback
  }

  /** `empty( $body['error'] )`. */
  predicate NoError(e: Option<ErrorValue>) {
    match e
    case None => true
    case Some(Text(s)) => EmptyString(s)
    case Some(Items(items)) => |items| == 0
    case Some(Other) => false
  }

  predicate InfoGiven(info: Option<string>) {
    info.Some? && !EmptyString(info.value)
  }

  /** One line of a list error: `description (message - field)` and an end
      of line, with "General error" and "Error" standing in for a missing
      description and message. */
  function ItemLine(item: ErrorItem): (r: string)
    ensures var d, m, f := OrElse(item.description, "General error"), OrElse(item.message, "Error"),
                           OrElse(item.field, "");
            && |r| == |d| + |m| + |f| + 7
            && r[..|d|] == d
            && r[|d|..|d| + 2] == " ("
            && r[|d| + 2..|d| + 2 + |m|] == m
            && r[|d| + 2 + |m|..|d| + 5 + |m|] == " - "
            && r[|d| + 5 + |m|..|r| - 2] == f
            && r[|r| - 2..] == ")\n"
  {
    var d, m, f := OrElse(item.description, "General error"), OrElse(item.message, "Error"),
                   OrElse(item.field, "");
    var a := d + " (";
    var b := a + m;
    var c := b + " - ";
    var e := c + f;
    var r := e + ")\n";
    assert r[..|d|] == d && r[|d|..|d| + 2] == " (" by {
      assert r[..|a|] == a;
      assert a[..|d|] == d && a[|d|..] == " (";
    }
    assert r[|a|..|b|] == m by {
      assert r[..|b|] == b;
      assert b[|a|..] == m;
    }
    assert r[|b|..|c|] == " - " by {
      assert r[..|c|] == c;
      assert c[|b|..] == " - ";
    }
    assert r[|c|..|e|] == f by {
      assert r[..|e|] == e;
      assert e[|c|..] == f;
    }
    r
  }

  /** The lines of all list errors, in list order. */
  function ItemLines(items: seq<ErrorItem>): (r: string)
    ensures |items| == 0 <==> r == ""
    ensures |items| > 0 ==> r[|r| - 1] == '\n'
    ensures |items| == 1 ==> r == ItemLine(items[0])
  {
    if |items| == 0 then "" else
    var init, last := items[..|items| - 1], items[|items| - 1];
    assert items == init + [last];
    ConcatAppend(init, [last], ItemLine);
    assert [last][..0] == [];
    Concat(items, ItemLine)
  }

  /** The lines of two lists back to back are the lines of the joined list. */
  lemma ItemLinesConcat(a: seq<ErrorItem>, b: seq<ErrorItem>)
    ensures ItemLines(a + b) == ItemLines(a) + ItemLines(b)
  {
    ConcatAppend(a, b, ItemLine);
  }

  /** The message starts with the line of the first list error. */
  lemma ItemLinesStart(items: seq<ErrorItem>)
    requires |items| > 0
    ensures ItemLine(items[0]) <= ItemLines(items)
  {
    assert ItemLines(items) == Concat(items, ItemLine);
    ConcatFirst(items, ItemLine);
  }

  /** `get_response_error`: a preset error message wins. Otherwise a string
      error (empty when the response has none) is followed by ` - info`
      when there is info; a list error becomes one line per element; any
      other error gives an empty message. */
  function ResponseError(errorMessage: string, body: Decoded): (r: string)
    ensures !EmptyString(errorMessage) ==> r == errorMessage
    ensures EmptyString(errorMessage) && body.error.Some? && body.error.value.Text? && !NoError(body.error) ==>
              r == body.error.value.s + (if InfoGiven(body.info) then " - " + body.info.value else "")
    ensures EmptyString(errorMessage) && NoError(body.error) ==>
              r == (if InfoGiven(body.info) then " - " + body.info.value else "")
    ensures EmptyString(errorMessage) && body.error.Some? && body.error.value.Items? && !NoError(body.error) ==>
              r == ItemLines(body.error.value.items)
    ensures EmptyString(errorMessage) && body.error == Some(Other) ==> r == ""
  {
    var error := if NoError(body.error) then Text("") else body.error.value;
    var info := OrElse(body.info, "");
    if !EmptyString(errorMessage) then errorMessage
    else
      match error
      case Text(s) => s + (if !EmptyString(info) then " - " + info else "")
      case Items(items) => ItemLines(items)
      case Other => ""
  }

  /** The message is empty exactly when no error message is preset and the
      response carries either an error of another type, or neither an error
      nor info. */
  lemma ResponseErrorEmpty(errorMessage: string, body: Decoded)
    ensures ResponseError(errorMessage, body) == ""
        <==> EmptyString(errorMessage)
             && (body.error == Some(Other) || (NoError(body.error) && !InfoGiven(body.info)))
  {
    if !EmptyString(errorMessage) {
      assert errorMessage != "";
    } else if body.error.Some? && !NoError(body.error) && body.error.value.Text? {
      assert body.error.value.s != "";
    }
  }

  /** `is_mailer_complete`: the settings are complete exactly when an API
      key is saved, and it is neither "" nor "0", which PHP counts as empty. */
  function IsMailerComplete(options: map<string, string>): (complete: bool)
    ensures complete <==> "api_key" in options && |options["api_key"]| > 0 && options["api_key"] != "0"
  {
    "api_key" in options && !EmptyString(options["api_key"])
  }

  /** The API key is the only required option: two option groups that
      agree on `api_key` are equally complete, whatever else they hold. */
  lemma OnlyApiKeyMatters(a: map<string, string>, b: map<string, string>)
    requires "api_key" in a <==> "api_key" in b
    requires "api_key" in a ==> a["api_key"] == b["api_key"]
    ensures IsMailerComplete(a) == IsMailerComplete(b)
  {
  }
}
