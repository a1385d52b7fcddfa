/**
 * The sender and the recipients: `from` / `from_name`, and `to`, `cc` and
 * `bcc`, each kept only when the host's e-mail validation accepts it.
 */
module Recipients {
  import opened Php
  import opened Host
  import opened Body
  import opened Seqs

  /** `set_from`: an address that fails validation changes nothing; a valid
      one sets `from`, and a non-empty name also sets `from_name`. */
  function SetFrom(env: Env, body: Request, email: string, name: string): (r: Request)
    ensures !env.isEmail(email) ==> r == body
    ensures env.isEmail(email) ==> "from" in r && r["from"] == Param(email)
    ensures env.isEmail(email) && !EmptyString(name) ==> "from_name" in r && r["from_name"] == Param(name)
    ensures EmptyString(name) ==> Untouched(body, r, "from_name")
    ensures forall k :: k != "from" && k != "from_name" ==> Untouched(body, r, k)
  {
    if !env.isEmail(email) then body
    else if EmptyString(name) then SetBodyParam(body, map["from" := Param(email)])
    else SetBodyParam(body, map["from" := Param(email), "from_name" := Param(name)])
  }

  /** The addresses given for one recipient type: a list of `[address,
      name]` pairs, reduced to their address slots, or a value that is not
      a list at all. */
  datatype Group = Entries(addresses: seq<Scalar>) | NotAList

  /** The recipient types the vendor API knows. */
  const Types: set<string> := {"to", "cc", "bcc"}

  /** An address slot that is a string the host accepts as an e-mail. */
  function Accept(env: Env): Scalar -> Option<string> {
    (a: Scalar) => if a.Str? && env.isEmail(a.s) then Some(a.s) else None
  }

  /** The valid addresses of a group, in input order. */
  function ValidAddresses(env: Env, g: Group): seq<string> {
    match g
    case Entries(addresses) => FilterMap(addresses, Accept(env))
    case NotAList => []
  }

  /** Every valid address, and nothing else, is kept. */
  lemma ValidAddressesMember(env: Env, addresses: seq<Scalar>, a: string)
    ensures a in ValidAddresses(env, Entries(addresses))
        <==> exists i :: 0 <= i < |addresses| && addresses[i] == Str(a) && env.isEmail(a)
  {
    FilterMapMember(addresses, Accept(env), a);
    if exists i :: 0 <= i < |addresses| && Accept(env)(addresses[i]) == Some(a) {
      var i :| 0 <= i < |addresses| && Accept(env)(addresses[i]) == Some(a);
      assert addresses[i] == Str(a);
    }
    if exists i :: 0 <= i < |addresses| && addresses[i] == Str(a) && env.isEmail(a) {
      var i :| 0 <= i < |addresses| && addresses[i] == Str(a) && env.isEmail(a);
      assert Accept(env)(addresses[i]) == Some(a);
    }
  }

  /** The body value for one recipient type: the whole list joined by
      commas for `to`, only the first address for `cc` and `bcc`. */
  function RecipientField(t: string, valid: seq<string>): Field
    requires |valid| > 0
  {
    if t == "to" then Param(Join(valid, ',')) else Param(valid[0])
  }

  function RecipientParams(env: Env, recipients: map<string, Group>): map<string, Field> {
    map t | t in recipients.Keys && t in Types && |ValidAddresses(env, recipients[t])| > 0
      :: RecipientField(t, ValidAddresses(env, recipients[t]))
  }

  /** A recipient type that yields a body key. */
  predicate HasValid(env: Env, recipients: map<string, Group>, t: string) {
    t in recipients && |ValidAddresses(env, recipients[t])| > 0
  }

  /** `set_recipients`: keys other than `to`, `cc` and `bcc` are ignored; a
      type with no valid address sets nothing; `to` becomes the valid
      addresses joined by commas; `cc` and `bcc` become their first valid
      address. */
  function SetRecipients(env: Env, body: Request, recipients: map<string, Group>): (r: Request)
    ensures forall k :: k !in Types ==> Untouched(body, r, k)
    ensures forall t :: t in Types && !HasValid(env, recipients, t) ==> Untouched(body, r, t)
    ensures HasValid(env, recipients, "to") ==>
              "to" in r && r["to"] == Param(Join(ValidAddresses(env, recipients["to"]), ','))
    ensures HasValid(env, recipients, "cc") ==>
              "cc" in r && r["cc"] == Param(ValidAddresses(env, recipients["cc"])[0])
    ensures HasValid(env, recipients, "bcc") ==>
              "bcc" in r && r["bcc"] == Param(ValidAddresses(env, recipients["bcc"])[0])
  {
    if |recipients| == 0 then body
    else SetBodyParam(body, RecipientParams(env, recipients))
  }

  /** The `to` value splits back, at its commas, into the valid addresses
      in input order, provided no valid address itself contains a comma. */
  lemma ToRoundTrip(env: Env, body: Request, recipients: map<string, Group>)
    requires HasValid(env, recipients, "to")
    requires forall a :: a in ValidAddresses(env, recipients["to"]) ==> ',' !in a
    ensures Split(SetRecipients(env, body, recipients)["to"].s, ',')
         == ValidAddresses(env, recipients["to"])
  {
    var valid := ValidAddresses(env, recipients["to"]);
    assert forall k :: 0 <= k < |valid| ==> ',' !in valid[k] by {
      forall k | 0 <= k < |valid| ensures ',' !in valid[k] {
        assert valid[k] in valid;
      }
    }
    SplitJoin(valid, ',');
  }

  /** The `cc` or `bcc` value is the first entry of the group that is a
      valid address; every entry before it failed validation. */
  lemma CopyIsFirstValid(env: Env, body: Request, recipients: map<string, Group>, t: string)
    requires t == "cc" || t == "bcc"
    requires HasValid(env, recipients, t)
    ensures recipients[t].Entries?
    ensures var addresses := recipients[t].addresses;
            exists i :: 0 <= i < |addresses|
                        && addresses[i] == Str(SetRecipients(env, body, recipients)[t].s)
                        && env.isEmail(addresses[i].s)
                        && forall j :: 0 <= j < i ==> Accept(env)(addresses[j]).None?
  {
    var addresses := recipients[t].addresses;
    FirstKept(addresses, Accept(env));
    var i :| 0 <= i < |addresses| && Accept(env)(addresses[i]) == Some(FilterMap(addresses, Accept(env))[0])
             && forall j :: 0 <= j < i ==> Accept(env)(addresses[j]).None?;
    assert addresses[i] == Str(SetRecipients(env, body, recipients)[t].s);
  }
}
