/**
 * The custom headers the mailer carries inside the request body, under
 * `body['headers']`, as a list of `{name, value}` entries with no name twice.
 */
module Headers {
  import opened Php
  import opened Host
  import opened Body

  /** One custom header as the host hands it over: `[name, value]`, either
      slot possibly missing. */
  datatype HeaderInput = HeaderInput(name: Scalar, value: Scalar)

  predicate UniqueNames(hs: seq<Header>) {
    forall i, j :: 0 <= i < j < |hs| ==> hs[i].name != hs[j].name
  }

  function NameSet(hs: seq<Header>): set<string> {
    set h | h in hs :: h.name
  }

  /** The header list currently in the body; none when the key is unset. */
  function CurrentHeaders(body: Request): seq<Header> {
    if "headers" in body && body["headers"].HeaderList? then body["headers"].headers else []
  }

  /** `array_search($name, array_column($headers, 'name'), true)`: the
      position of the first entry with exactly that name. */
  function Search(hs: seq<Header>, name: string): (r: Option<nat>)
    ensures r.None? <==> name !in NameSet(hs)
    ensures r.Some? ==> r.value < |hs| && hs[r.value].name == name
    ensures r.Some? ==> forall j :: 0 <= j < r.value ==> hs[j].name != name
    decreases |hs|
  {
    if |hs| == 0 then None
    else if hs[0].name == name then Some(0)
    else
      assert hs == [hs[0]] + hs[1..];
      match Search(hs[1..], name)
      case Some(k) => Some(k + 1)
      case None => None
  }

  /** Reference definition: the entries with any other name, in order. */
  function Without(hs: seq<Header>, name: string): seq<Header>
    decreases |hs|
  {
    if |hs| == 0 then []
    else (if hs[0].name == name then [] else [hs[0]]) + Without(hs[1..], name)
  }

  lemma {:induction false} WithoutConcat(a: seq<Header>, b: seq<Header>, name: string)
    ensures Without(a + b, name) == Without(a, name) + Without(b, name)
    decreases |a|
  {
    if |a| > 0 {
      assert (a + b)[1..] == a[1..] + b;
      WithoutConcat(a[1..], b, name);
    } else {
      assert a + b == b;
    }
  }

  lemma {:induction false} WithoutAbsent(hs: seq<Header>, name: string)
    requires forall i :: 0 <= i < |hs| ==> hs[i].name != name
    ensures Without(hs, name) == hs
    decreases |hs|
  {
    if |hs| > 0 {
      WithoutAbsent(hs[1..], name);
      assert [hs[0]] + hs[1..] == hs;
    }
  }

  lemma {:induction false} WithoutLacksName(hs: seq<Header>, name: string)
    ensures forall i :: 0 <= i < |Without(hs, name)| ==> Without(hs, name)[i].name != name
    decreases |hs|
  {
    if |hs| > 0 {
      WithoutLacksName(hs[1..], name);
    }
  }

  /** When only position `k` holds a name, removing that entry is the same
      as keeping every entry with another name. */
  lemma RemoveAtIsWithout(hs: seq<Header>, name: string, k: nat)
    requires k < |hs| && hs[k].name == name
    requires forall i :: 0 <= i < |hs| && i != k ==> hs[i].name != name
    ensures hs[..k] + hs[k + 1..] == Without(hs, name)
  {
    var a, b := hs[..k], hs[k + 1..];
    forall i | 0 <= i < |a| ensures a[i].name != name {
      assert a[i] == hs[i];
    }
    forall i | 0 <= i < |b| ensures b[i].name != name {
      assert b[i] == hs[k + 1 + i];
    }
    WithoutAbsent(a, name);
    WithoutAbsent(b, name);
    WithoutSplit(a, hs[k], b, name);
    assert hs == a + [hs[k]] + b;
  }

  lemma WithoutSplit(a: seq<Header>, h: Header, b: seq<Header>, name: string)
    requires h.name == name
    ensures Without(a + [h] + b, name) == Without(a, name) + Without(b, name)
  {
    WithoutConcat(a + [h], b, name);
    WithoutConcat(a, [h], name);
    assert Without([h], name) == [] by {
      assert [h][1..] == [];
    }
  }

  /** Position `k` holds the first entry with the name. */
  predicate FirstAt(hs: seq<Header>, name: string, k: nat) {
    && k < |hs|
    && hs[k].name == name
    && forall j :: 0 <= j < k ==> hs[j].name != name
  }

  /** `unset($headers[$key])` after the search, then `array_values`: the
      first entry with the name is dropped and the rest close up. */
  function Remove(hs: seq<Header>, name: string): (r: seq<Header>)
    ensures name !in NameSet(hs) ==> r == hs
    ensures name in NameSet(hs) ==> |r| == |hs| - 1
    ensures name in NameSet(hs) ==> exists k: nat :: FirstAt(hs, name, k) && r == hs[..k] + hs[k + 1..]
  {
    match Search(hs, name)
    case Some(k) => hs[..k] + hs[k + 1..]
    case None => hs
  }

  lemma NameSetConcat(a: seq<Header>, b: seq<Header>)
    ensures NameSet(a + b) == NameSet(a) + NameSet(b)
  {
    forall h | h in a + b ensures h in a || h in b {
    }
  }

  lemma NameSetSingleton(h: Header)
    ensures NameSet([h]) == {h.name}
  {
    assert h in [h];
  }

  /** Removing one entry with a name and then adding the name leaves the
      same set of names. */
  lemma RemoveNames(hs: seq<Header>, name: string)
    ensures NameSet(Remove(hs, name)) + {name} == NameSet(hs) + {name}
  {
    if Search(hs, name).Some? {
      var k := Search(hs, name).value;
      var a, b := hs[..k], hs[k + 1..];
      assert hs == a + ([hs[k]] + b);
      assert Remove(hs, name) == a + b;
      NameSetConcat(a, [hs[k]] + b);
      NameSetConcat([hs[k]], b);
      NameSetConcat(a, b);
      var na, nb := NameSet(a), NameSet(b);
      NameSetSingleton(hs[k]);
      assert NameSet(hs) == na + ({name} + nb);
      assert NameSet(Remove(hs, name)) == na + nb;
    }
  }

  /** In a list without repeated names, cutting out one position keeps
      exactly the entries with other names. */
  lemma CutUnique(hs: seq<Header>, k: nat)
    requires UniqueNames(hs) && k < |hs|
    ensures hs[..k] + hs[k + 1..] == Without(hs, hs[k].name)
  {
    RemoveAtIsWithout(hs, hs[k].name, k);
  }

  /** In a list without repeated names, removal keeps exactly the entries
      with other names, in order, and none of them has the name. */
  lemma RemoveUnique(hs: seq<Header>, name: string)
    requires UniqueNames(hs)
    ensures Remove(hs, name) == Without(hs, name)
    ensures UniqueNames(Remove(hs, name))
    ensures forall i :: 0 <= i < |Remove(hs, name)| ==> Remove(hs, name)[i].name != name
  {
    assert Remove(hs, name) == Without(hs, name) by {
      match Search(hs, name)
      case Some(k) =>
        CutUnique(hs, k);
        assert Remove(hs, name) == hs[..k] + hs[k + 1..];
      case None =>
        WithoutAbsent(hs, name);
    }
    WithoutLacksName(hs, name);
    WithoutUnique(hs, name);
  }

  lemma {:induction false} WithoutUnique(hs: seq<Header>, name: string)
    requires UniqueNames(hs)
    ensures UniqueNames(Without(hs, name))
    ensures forall h :: h in Without(hs, name) ==> h in hs
    decreases |hs|
  {
    if |hs| > 0 {
      var t := hs[1..];
      assert UniqueNames(t) by {
        forall i, j | 0 <= i < j < |t| ensures t[i].name != t[j].name {
          assert t[i] == hs[i + 1] && t[j] == hs[j + 1];
        }
      }
      WithoutUnique(t, name);
      var w := Without(t, name);
      forall i | 0 <= i < |w| ensures w[i].name != hs[0].name {
        assert w[i] in t;
        var j :| 0 <= j < |t| && t[j] == w[i];
        assert hs[j + 1] == w[i];
      }
    }
  }

  /** Drop the first entry with the name, if any, and append `{name, value}`:
      the list update `set_body_header` performs. */
  function Put(hs: seq<Header>, name: string, value: Scalar): (r: seq<Header>)
    ensures name !in NameSet(hs) ==> r == hs + [Header(name, value)]
    ensures name in NameSet(hs) ==>
              exists k: nat :: FirstAt(hs, name, k) && r == hs[..k] + hs[k + 1..] + [Header(name, value)]
  {
    Remove(hs, name) + [Header(name, value)]
  }

  /** Putting a name adds exactly that name to the set of names. */
  lemma PutNames(hs: seq<Header>, name: string, value: Scalar)
    ensures NameSet(Put(hs, name, value)) == NameSet(hs) + {name}
  {
    RemoveNames(hs, name);
    assert Put(hs, name, value) == Remove(hs, name) + [Header(name, value)];
  }

  /** Names stay unique, and the entries before the new one are the old
      entries with other names, values and order unchanged. */
  lemma PutUnique(hs: seq<Header>, name: string, value: Scalar)
    requires UniqueNames(hs)
    ensures UniqueNames(Put(hs, name, value))
    ensures Put(hs, name, value)[..|Put(hs, name, value)| - 1] == Without(hs, name)
  {
    RemoveUnique(hs, name);
  }

  /** When the old last entry has another name, it becomes the second to
      last entry. */
  lemma PutKeepsLast(hs: seq<Header>, name: string, value: Scalar)
    requires |hs| > 0 && hs[|hs| - 1].name != name
    ensures |Put(hs, name, value)| >= 2
    ensures Put(hs, name, value)[|Put(hs, name, value)| - 2] == hs[|hs| - 1]
  {
    var r := Remove(hs, name);
    match Search(hs, name)
    case Some(k) =>
      assert k < |hs| - 1;
      assert r[|r| - 1] == hs[|hs| - 1];
    case None =>
  }

  /** Searching a list whose only entry with the name is the last one
      finds that last entry. */
  lemma {:induction false} SearchFindsLast(w: seq<Header>, h: Header)
    requires forall i :: 0 <= i < |w| ==> w[i].name != h.name
    ensures Search(w + [h], h.name) == Some(|w|)
    decreases |w|
  {
    if |w| > 0 {
      assert (w + [h])[1..] == w[1..] + [h];
      SearchFindsLast(w[1..], h);
    }
  }

  /** Putting the same name twice keeps only the second value. */
  lemma PutTwice(hs: seq<Header>, name: string, v1: Scalar, v2: Scalar)
    requires UniqueNames(hs)
    ensures Put(Put(hs, name, v1), name, v2) == Put(hs, name, v2)
  {
    RemoveUnique(hs, name);
    var w := Remove(hs, name);
    var once := w + [Header(name, v1)];
    SearchFindsLast(w, Header(name, v1));
    assert once[..|w|] == w && once[|w| + 1..] == [];
    assert Remove(once, name) == w;
  }

  /** The value `set_body_header` stores: sanitised, except under `Message-ID`. */
  function StoredValue(env: Env, n: string, value: Scalar): Scalar {
    if n != "Message-ID" then env.sanitizeValue(value) else value
  }

  /** `set_body_header`: a name that sanitises to an empty string is
      ignored; otherwise only the header list changes, and it ends with the
      new `{name, value}`. */
  function SetBodyHeader(env: Env, body: Request, name: Scalar, value: Scalar): (r: Request)
    ensures EmptyString(env.sanitizeText(name)) ==> r == body
    ensures forall k :: k != "headers" ==> Untouched(body, r, k)
    ensures !EmptyString(env.sanitizeText(name)) ==>
              var hs := CurrentHeaders(r);
              |hs| > 0 && hs[|hs| - 1] == Header(env.sanitizeText(name), StoredValue(env, env.sanitizeText(name), value))
  {
    var n := env.sanitizeText(name);
    if EmptyString(n) then body
    else
      var hs := Put(CurrentHeaders(body), n, StoredValue(env, n, value));
      var r := body["headers" := HeaderList(hs)];
      assert CurrentHeaders(r) == hs;
      r
  }

  /** The header names afterwards are the names before plus the new one. */
  lemma SetBodyHeaderNames(env: Env, body: Request, name: Scalar, value: Scalar)
    ensures var n := env.sanitizeText(name);
            NameSet(CurrentHeaders(SetBodyHeader(env, body, name, value)))
            == NameSet(CurrentHeaders(body)) + (if EmptyString(n) then {} else {n})
  {
    var n := env.sanitizeText(name);
    if !EmptyString(n) {
      PutNames(CurrentHeaders(body), n, StoredValue(env, n, value));
    }
  }

  /** Unique header names stay unique, and every entry but the new last one
      is an old entry with another name, in its old relative order. */
  lemma SetBodyHeaderUnique(env: Env, body: Request, name: Scalar, value: Scalar)
    requires UniqueNames(CurrentHeaders(body))
    requires !EmptyString(env.sanitizeText(name))
    ensures var hs := CurrentHeaders(SetBodyHeader(env, body, name, value));
            && UniqueNames(hs)
            && hs[..|hs| - 1] == Without(CurrentHeaders(body), env.sanitizeText(name))
  {
    var n := env.sanitizeText(name);
    PutUnique(CurrentHeaders(body), n, StoredValue(env, n, value));
  }

  /** Setting a header twice under the same name leaves only the second
      value, provided names were unique to begin with. */
  lemma SetBodyHeaderTwice(env: Env, body: Request, name: Scalar, v1: Scalar, v2: Scalar)
    requires UniqueNames(CurrentHeaders(body))
    ensures SetBodyHeader(env, SetBodyHeader(env, body, name, v1), name, v2)
         == SetBodyHeader(env, body, name, v2)
  {
    var n := env.sanitizeText(name);
    if !EmptyString(n) {
      var hs := CurrentHeaders(body);
      var s1, s2 := StoredValue(env, n, v1), StoredValue(env, n, v2);
      var once, twice := HeaderList(Put(hs, n, s1)), HeaderList(Put(hs, n, s2));
      var b1 := body["headers" := once];
      assert SetBodyHeader(env, body, name, v1) == b1 by {
        StoresPut(env, body, name, v1);
      }
      assert SetBodyHeader(env, b1, name, v2) == b1["headers" := twice] by {
        StoresPut(env, b1, name, v2);
        assert CurrentHeaders(b1) == Put(hs, n, s1);
        PutTwice(hs, n, s1, s2);
      }
      assert SetBodyHeader(env, body, name, v2) == body["headers" := twice] by {
        StoresPut(env, body, name, v2);
      }
      Overwrite(body, "headers", once, twice);
    }
  }

  lemma StoresPut(env: Env, body: Request, name: Scalar, value: Scalar)
    requires !EmptyString(env.sanitizeText(name))
    ensures var n := env.sanitizeText(name);
            SetBodyHeader(env, body, name, value)
            == body["headers" := HeaderList(Put(CurrentHeaders(body), n, StoredValue(env, n, value)))]
  {
  }

  /** The value of the `X-Mailer` header the mailer adds. */
  function XMailer(mailer: string, version: string): string {
    "WPMailSMTP/Mailer/" + mailer + " " + version
  }

  /** The non-empty sanitised names among the given header inputs. */
  function InputNames(env: Env, inputs: seq<HeaderInput>): set<string>
    decreases |inputs|
  {
    if |inputs| == 0 then {}
    else
      var n := env.sanitizeText(inputs[|inputs| - 1].name);
      InputNames(env, inputs[..|inputs| - 1]) + (if EmptyString(n) then {} else {n})
  }

  /** `after` is `before` with header names `added` and nothing else: no
      other key changed, and unique names stayed unique. */
  ghost predicate Extends(before: Request, after: Request, added: set<string>) {
    && NameSet(CurrentHeaders(after)) == NameSet(CurrentHeaders(before)) + added
    && (UniqueNames(CurrentHeaders(before)) ==> UniqueNames(CurrentHeaders(after)))
    && (forall k :: k != "headers" ==> Untouched(before, after, k))
  }

  lemma ExtendsStep(env: Env, body: Request, r: Request, added: set<string>, input: HeaderInput)
    requires Extends(body, r, added)
    ensures Extends(body, SetBodyHeader(env, r, input.name, input.value),
                    added + InputNames(env, [input]))
  {
    var r' := SetBodyHeader(env, r, input.name, input.value);
    var n := env.sanitizeText(input.name);
    var extra := if EmptyString(n) then {} else {n};
    assert InputNames(env, [input]) == extra by {
      assert [input][..0] == [];
    }
    assert NameSet(CurrentHeaders(r')) == NameSet(CurrentHeaders(body)) + (added + extra) by {
      SetBodyHeaderNames(env, r, input.name, input.value);
    }
    assert UniqueNames(CurrentHeaders(body)) ==> UniqueNames(CurrentHeaders(r')) by {
      if UniqueNames(CurrentHeaders(body)) && !EmptyString(n) {
        SetBodyHeaderUnique(env, r, input.name, input.value);
      }
    }
    forall k | k != "headers" ensures Untouched(body, r', k) {
      assert Untouched(body, r, k) && Untouched(r, r', k);
    }
  }

  lemma ExtendsTrans(a: Request, b: Request, c: Request, s1: set<string>, s2: set<string>)
    requires Extends(a, b, s1) && Extends(b, c, s2)
    ensures Extends(a, c, s1 + s2)
  {
    forall k | k != "headers" ensures Untouched(a, c, k) {
      assert Untouched(a, b, k) && Untouched(b, c, k);
    }
  }

  /** The two headers `set_headers` adds after the custom ones. */
  function AddTrailer(env: Env, b: Request, xMailer: string, messageId: string): Request {
    var b1 := SetBodyHeader(env, b, Str("X-Mailer"), Str(xMailer));
    SetBodyHeader(env, b1, Str("Message-ID"), Str(messageId))
  }

  lemma InputNameLiteral(env: Env, name: string, value: Scalar)
    requires env.sanitizeText(Str(name)) == name
    requires !EmptyString(name)
    ensures InputNames(env, [HeaderInput(Str(name), value)]) == {name}
  {
    assert [HeaderInput(Str(name), value)][..0] == [];
  }

  /** `X-Mailer`, then `Message-ID`, end up as the last two entries. */
  lemma Trailer(env: Env, b: Request, xMailer: string, messageId: string)
    requires env.sanitizeText(Str("X-Mailer")) == "X-Mailer"
    requires env.sanitizeText(Str("Message-ID")) == "Message-ID"
    ensures var hs := CurrentHeaders(AddTrailer(env, b, xMailer, messageId));
            && |hs| >= 2
            && hs[|hs| - 2] == Header("X-Mailer", env.sanitizeValue(Str(xMailer)))
            && hs[|hs| - 1] == Header("Message-ID", Str(messageId))
  {
    var b1 := SetBodyHeader(env, b, Str("X-Mailer"), Str(xMailer));
    var withXMailer := CurrentHeaders(b1);
    var xm := Header("X-Mailer", env.sanitizeValue(Str(xMailer)));
    assert !EmptyString("X-Mailer") && !EmptyString("Message-ID");
    assert withXMailer[|withXMailer| - 1] == xm;
    assert "X-Mailer" != "Message-ID" by {
      assert |"X-Mailer"| != |"Message-ID"|;
    }
    var r := AddTrailer(env, b, xMailer, messageId);
    assert CurrentHeaders(r) == Put(withXMailer, "Message-ID", Str(messageId));
    PutKeepsLast(withXMailer, "Message-ID", Str(messageId));
  }

  /** The trailer adds exactly its two names and touches no other key. */
  lemma TrailerExtends(env: Env, b: Request, xMailer: string, messageId: string)
    requires env.sanitizeText(Str("X-Mailer")) == "X-Mailer"
    requires env.sanitizeText(Str("Message-ID")) == "Message-ID"
    ensures Extends(b, AddTrailer(env, b, xMailer, messageId), {"X-Mailer", "Message-ID"})
  {
    var b1 := SetBodyHeader(env, b, Str("X-Mailer"), Str(xMailer));
    assert !EmptyString("X-Mailer") && !EmptyString("Message-ID");
    InputNameLiteral(env, "X-Mailer", Str(xMailer));
    InputNameLiteral(env, "Message-ID", Str(messageId));
    ExtendsStep(env, b, b, {}, HeaderInput(Str("X-Mailer"), Str(xMailer)));
    ExtendsStep(env, b, b1, {"X-Mailer"}, HeaderInput(Str("Message-ID"), Str(messageId)));
  }

  lemma FoldStep(env: Env, body: Request, r: Request, inputs: seq<HeaderInput>, i: nat)
    requires i < |inputs|
    requires Extends(body, r, InputNames(env, inputs[..i]))
    ensures Extends(body, SetBodyHeader(env, r, inputs[i].name, inputs[i].value),
                    InputNames(env, inputs[..i + 1]))
  {
    assert InputNames(env, inputs[..i + 1]) == InputNames(env, inputs[..i]) + InputNames(env, [inputs[i]]) by {
      assert inputs[..i + 1][..i] == inputs[..i];
      assert [inputs[i]][..0] == [];
    }
    ExtendsStep(env, body, r, InputNames(env, inputs[..i]), inputs[i]);
  }

  /** The entry `set_body_header` makes of one custom header. */
  function Stored(env: Env, input: HeaderInput): Header {
    var n := env.sanitizeText(input.name);
    Header(n, StoredValue(env, n, input.value))
  }

  /** Input `j` has a non-empty sanitised name that no later input has. */
  predicate LastNamed(env: Env, inputs: seq<HeaderInput>, j: nat)
    requires j < |inputs|
  {
    var n := env.sanitizeText(inputs[j].name);
    && !EmptyString(n)
    && forall k :: j < k < |inputs| ==> env.sanitizeText(inputs[k].name) != n
  }

  /** Cutting out position `k` keeps every other entry. */
  lemma CutKeeps(hs: seq<Header>, k: nat, h: Header)
    requires k < |hs| && h in hs && h != hs[k]
    ensures h in hs[..k] + hs[k + 1..]
  {
    var rest := hs[..k] + hs[k + 1..];
    var m :| 0 <= m < |hs| && hs[m] == h;
    if m < k {
      assert rest[m] == h;
    } else {
      assert rest[m - 1] == h;
    }
  }

  /** An entry under any other name survives a put, with its value. */
  lemma PutKeeps(hs: seq<Header>, name: string, value: Scalar, h: Header)
    requires h in hs && h.name != name
    ensures h in Put(hs, name, value)
  {
    match Search(hs, name)
    case Some(k) =>
      CutKeeps(hs, k, h);
      assert Put(hs, name, value) == hs[..k] + hs[k + 1..] + [Header(name, value)];
    case None =>
      assert Put(hs, name, value) == hs + [Header(name, value)];
  }

  /** An entry under any other name survives `set_body_header`, with its
      value, whatever the list held before. */
  lemma SetBodyHeaderKeeps(env: Env, body: Request, name: Scalar, value: Scalar, h: Header)
    requires h in CurrentHeaders(body)
    requires h.name != env.sanitizeText(name)
    ensures h in CurrentHeaders(SetBodyHeader(env, body, name, value))
  {
    var n := env.sanitizeText(name);
    if !EmptyString(n) {
      var hs := CurrentHeaders(body);
      assert CurrentHeaders(SetBodyHeader(env, body, name, value)) == Put(hs, n, StoredValue(env, n, value)) by {
        StoresPut(env, body, name, value);
      }
      PutKeeps(hs, n, StoredValue(env, n, value), h);
    }
  }

  /** The values the custom headers carry so far: an old entry whose name
      no processed input has is still there, and so is the entry of every
      processed input that no later one overrides. */
  ghost predicate Carries(env: Env, body: Request, r: Request, inputs: seq<HeaderInput>) {
    && (forall h :: h in CurrentHeaders(body) && h.name !in InputNames(env, inputs) ==> h in CurrentHeaders(r))
    && (forall j :: 0 <= j < |inputs| && LastNamed(env, inputs, j) ==> Stored(env, inputs[j]) in CurrentHeaders(r))
  }

  lemma InputNamesLast(env: Env, inputs: seq<HeaderInput>, i: nat)
    requires i < |inputs|
    ensures var n := env.sanitizeText(inputs[i].name);
            InputNames(env, inputs[..i + 1]) == InputNames(env, inputs[..i]) + (if EmptyString(n) then {} else {n})
  {
    assert inputs[..i + 1][..i] == inputs[..i];
  }

  lemma CarryStep(env: Env, body: Request, r: Request, inputs: seq<HeaderInput>, i: nat)
    requires i < |inputs|
    requires Carries(env, body, r, inputs[..i])
    ensures Carries(env, body, SetBodyHeader(env, r, inputs[i].name, inputs[i].value), inputs[..i + 1])
  {
    var input := inputs[i];
    var r' := SetBodyHeader(env, r, input.name, input.value);
    var n := env.sanitizeText(input.name);
    var p, p' := inputs[..i], inputs[..i + 1];
    InputNamesLast(env, inputs, i);
    forall h | h in CurrentHeaders(body) && h.name !in InputNames(env, p')
      ensures h in CurrentHeaders(r')
    {
      assert h in CurrentHeaders(r);
      if !EmptyString(n) {
        SetBodyHeaderKeeps(env, r, input.name, input.value, h);
      }
    }
    forall j | 0 <= j < |p'| && LastNamed(env, p', j)
      ensures Stored(env, p'[j]) in CurrentHeaders(r')
    {
      if j < i {
        assert LastNamed(env, p, j) by {
          forall k | j < k < |p| ensures env.sanitizeText(p[k].name) != env.sanitizeText(p[j].name) {
            assert p[k] == p'[k];
          }
        }
        assert p'[j] == p[j];
        assert env.sanitizeText(p'[i].name) != env.sanitizeText(p[j].name);
        SetBodyHeaderKeeps(env, r, input.name, input.value, Stored(env, p[j]));
      } else {
        assert p'[j] == input;
      }
    }
  }

  /** The trailer keeps every entry under another name. */
  lemma TrailerKeeps(env: Env, b: Request, xMailer: string, messageId: string, h: Header)
    requires env.sanitizeText(Str("X-Mailer")) == "X-Mailer"
    requires env.sanitizeText(Str("Message-ID")) == "Message-ID"
    requires h in CurrentHeaders(b) && h.name != "X-Mailer" && h.name != "Message-ID"
    ensures h in CurrentHeaders(AddTrailer(env, b, xMailer, messageId))
  {
    var b1 := SetBodyHeader(env, b, Str("X-Mailer"), Str(xMailer));
    SetBodyHeaderKeeps(env, b, Str("X-Mailer"), Str(xMailer), h);
    SetBodyHeaderKeeps(env, b1, Str("Message-ID"), Str(messageId), h);
  }

  /** The values `set_headers` leaves behind: an old entry that neither a
      custom header nor the trailer names is kept as it was, and every
      custom header that no later one and not the trailer overrides is
      present with its sanitised name and stored value. */
  ghost predicate ValuesDone(env: Env, body: Request, r: Request, inputs: seq<HeaderInput>) {
    && (forall h ::
          (h in CurrentHeaders(body) && h.name !in InputNames(env, inputs)
           && h.name != "X-Mailer" && h.name != "Message-ID")
          ==> h in CurrentHeaders(r))
    && (forall j ::
          (0 <= j < |inputs| && LastNamed(env, inputs, j)
           && env.sanitizeText(inputs[j].name) != "X-Mailer"
           && env.sanitizeText(inputs[j].name) != "Message-ID")
          ==> Stored(env, inputs[j]) in CurrentHeaders(r))
  }

  lemma FinishValues(env: Env, body: Request, before: Request, inputs: seq<HeaderInput>,
                     xMailer: string, messageId: string)
    requires env.sanitizeText(Str("X-Mailer")) == "X-Mailer"
    requires env.sanitizeText(Str("Message-ID")) == "Message-ID"
    requires Carries(env, body, before, inputs)
    ensures ValuesDone(env, body, AddTrailer(env, before, xMailer, messageId), inputs)
  {
    forall h | h in CurrentHeaders(body) && h.name !in InputNames(env, inputs)
               && h.name != "X-Mailer" && h.name != "Message-ID"
      ensures h in CurrentHeaders(AddTrailer(env, before, xMailer, messageId))
    {
      TrailerKeeps(env, before, xMailer, messageId, h);
    }
    forall j | 0 <= j < |inputs| && LastNamed(env, inputs, j)
               && env.sanitizeText(inputs[j].name) != "X-Mailer"
               && env.sanitizeText(inputs[j].name) != "Message-ID"
      ensures Stored(env, inputs[j]) in CurrentHeaders(AddTrailer(env, before, xMailer, messageId))
    {
      TrailerKeeps(env, before, xMailer, messageId, Stored(env, inputs[j]));
    }
  }

  /** What `set_headers` guarantees: `X-Mailer` and then `Message-ID` are
      the last two entries; the names are the old ones, the custom ones that
      survive sanitising, and those two; unique names stay unique; no other
      key of the body changes. */
  ghost predicate HeadersDone(env: Env, body: Request, r: Request, inputs: seq<HeaderInput>,
                        xMailer: string, messageId: string)
  {
    var hs := CurrentHeaders(r);
    && |hs| >= 2
    && hs[|hs| - 2] == Header("X-Mailer", env.sanitizeValue(Str(xMailer)))
    && hs[|hs| - 1] == Header("Message-ID", Str(messageId))
    && NameSet(hs) == NameSet(CurrentHeaders(body)) + InputNames(env, inputs) + {"X-Mailer", "Message-ID"}
    && (UniqueNames(CurrentHeaders(body)) ==> UniqueNames(hs))
    && (forall k :: k != "headers" ==> Untouched(body, r, k))
  }

  lemma Finish(env: Env, body: Request, before: Request, inputs: seq<HeaderInput>,
               xMailer: string, messageId: string)
    requires env.sanitizeText(Str("X-Mailer")) == "X-Mailer"
    requires env.sanitizeText(Str("Message-ID")) == "Message-ID"
    requires Extends(body, before, InputNames(env, inputs))
    ensures HeadersDone(env, body, AddTrailer(env, before, xMailer, messageId), inputs, xMailer, messageId)
  {
    Trailer(env, before, xMailer, messageId);
    TrailerExtends(env, before, xMailer, messageId);
    ExtendsTrans(body, before, AddTrailer(env, before, xMailer, messageId),
                 InputNames(env, inputs), {"X-Mailer", "Message-ID"});
  }

  /** `set_headers`: every custom header goes through `set_body_header`,
      then `X-Mailer` and `Message-ID` are set, so they end up as the last
      two entries whatever came before. */
  method SetHeaders(env: Env, body: Request, inputs: seq<HeaderInput>,
                    mailer: string, version: string, messageId: string) returns (r: Request)
    requires env.sanitizeText(Str("X-Mailer")) == "X-Mailer"
    requires env.sanitizeText(Str("Message-ID")) == "Message-ID"
    ensures HeadersDone(env, body, r, inputs, XMailer(mailer, version), messageId)
    ensures ValuesDone(env, body, r, inputs)
  {
    r := body;
    for i := 0 to |inputs|
      invariant Extends(body, r, InputNames(env, inputs[..i]))
      invariant Carries(env, body, r, inputs[..i])
    {
      FoldStep(env, body, r, inputs, i);
      CarryStep(env, body, r, inputs, i);
      r := SetBodyHeader(env, r, inputs[i].name, inputs[i].value);
    }
    assert inputs[..|inputs|] == inputs;
    var before := r;
    r := AddTrailer(env, r, XMailer(mailer, version), messageId);
    Finish(env, body, before, inputs, XMailer(mailer, version), messageId);
    FinishValues(env, body, before, inputs, XMailer(mailer, version), messageId);
  }
}
