/** `parse_otpauth_url` of `TOTPGenerator` (totp_generator.py): reads an
    `otpauth://totp/NAME?secret=SECRET&issuer=ISSUER` provisioning URL into an
    account record, or says why it cannot. Percent-encoding is not decoded,
    as in the source. */
module OtpauthUrl {
  import opened Wrappers
  import opened Strings

  const Scheme := "otpauth://"
  const TotpPrefix := "otpauth://totp/"

  const NotOtpauthMessage := "URL deve começar com otpauth://"
  const NotTotpMessage := "URL deve ser do tipo TOTP"
  const MalformedMessage := "URL malformada"
  const NoSecretMessage := "Chave secreta não encontrada na URL"
  const ParsedMessage := "URL analisada com sucesso"

  /** The record the parser returns on success. */
  datatype OtpAccount = OtpAccount(name: string, secret: string, issuer: string)

  /** The query parameter `part` carries the key `key`: it contains `=`, and
      the text before its first `=` is `key`. */
  predicate Binds(part: string, key: string) {
    '=' in part && SplitFirst(part, '=').0 == key
  }

  /** The parameter table filled from the `&`-separated parts, in order:
      parts without `=` are ignored, and a later part with the same key
      overrides an earlier one. */
  function ParamTable(parts: seq<string>): map<string, string>
    decreases |parts|
  {
    if parts == [] then map[]
    else
      var table := ParamTable(parts[..|parts| - 1]);
      var last := parts[|parts| - 1];
      if '=' in last then
        var (key, value) := SplitFirst(last, '=');
        table[key := value]
      else table
  }

  /** The keys of the table are exactly the keys some part binds. */
  lemma {:induction false} ParamTableKeys(parts: seq<string>, key: string)
    ensures key in ParamTable(parts) <==> exists i | 0 <= i < |parts| :: Binds(parts[i], key)
    decreases |parts|
  {
    if parts != [] {
      var init := parts[..|parts| - 1];
      ParamTableKeys(init, key);
      assert forall i | 0 <= i < |init| :: init[i] == parts[i];
    }
  }

  /** The value of a key is the one given by the last part that binds it. */
  lemma {:induction false} ParamTableLastWins(parts: seq<string>, i: nat)
    requires i < |parts| && '=' in parts[i]
    requires forall j | i < j < |parts| :: !Binds(parts[j], SplitFirst(parts[i], '=').0)
    ensures SplitFirst(parts[i], '=').0 in ParamTable(parts)
    ensures ParamTable(parts)[SplitFirst(parts[i], '=').0] == SplitFirst(parts[i], '=').1
    decreases |parts|
  {
    if i < |parts| - 1 {
      var init := parts[..|parts| - 1];
      assert init[i] == parts[i];
      ParamTableLastWins(init, i);
    }
  }

  /** The parse, as a value: one of four error messages with no record, or
      the record and the success message. */
  function Parse(url: string): (r: (Option<OtpAccount>, string))
    ensures r.0.Some? <==> r.1 == ParsedMessage
    ensures r.0.None? ==> r.1 in {NotOtpauthMessage, NotTotpMessage, MalformedMessage, NoSecretMessage}
    ensures r.0.Some? ==> StartsWith(url, Scheme) && Contains(url, TotpPrefix) && '?' !in r.0.value.name
  {
    if !StartsWith(url, Scheme) then (None, NotOtpauthMessage)
    else if !Contains(url, TotpPrefix) then (None, NotTotpMessage)
    else
      var rest := ReplaceAll(url, TotpPrefix);
      if '?' !in rest then (None, MalformedMessage)
      else
        var (account, query) := SplitFirst(rest, '?');
        var params := ParamTable(Split(query, '&'));
        if "secret" !in params then (None, NoSecretMessage)
        else
          var issuer := if "issuer" in params then params["issuer"] else "";
          (Some(OtpAccount(account, params["secret"], issuer)), ParsedMessage)
  }

  /** Which failure produces which message, and success exactly when all
      four checks pass. */
  lemma ParseMessages(url: string)
    ensures var r := Parse(url);
            (r.1 == NotOtpauthMessage <==> !StartsWith(url, Scheme))
            && (r.1 == NotTotpMessage <==> StartsWith(url, Scheme) && !Contains(url, TotpPrefix))
            && (r.1 == MalformedMessage <==>
                  StartsWith(url, Scheme) && Contains(url, TotpPrefix) && '?' !in ReplaceAll(url, TotpPrefix))
  {
  }

  /** The missing-secret message is given exactly when the first three checks
      pass and no `&`-separated part of the query binds `secret`; every other
      URL that passes them parses. */
  lemma ParseMissingSecret(url: string)
    requires StartsWith(url, Scheme) && Contains(url, TotpPrefix) && '?' in ReplaceAll(url, TotpPrefix)
    ensures var parts := Split(SplitFirst(ReplaceAll(url, TotpPrefix), '?').1, '&');
            (Parse(url).1 == NoSecretMessage <==> forall i | 0 <= i < |parts| :: !Binds(parts[i], "secret"))
            && (Parse(url).0.Some? <==> exists i | 0 <= i < |parts| :: Binds(parts[i], "secret"))
  {
    var parts := Split(SplitFirst(ReplaceAll(url, TotpPrefix), '?').1, '&');
    ParseAtSecretCheck(url);
    ParamTableKeys(parts, "secret");
  }

  /** Once the first three checks pass, the outcome turns on whether the
      parameter table has `secret`. */
  lemma ParseAtSecretCheck(url: string)
    requires StartsWith(url, Scheme) && Contains(url, TotpPrefix) && '?' in ReplaceAll(url, TotpPrefix)
    ensures var params := ParamTable(Split(SplitFirst(ReplaceAll(url, TotpPrefix), '?').1, '&'));
            (Parse(url).1 == NoSecretMessage <==> "secret" !in params)
            && (Parse(url).0.Some? <==> "secret" in params)
  {
  }

  /** A successful parse, step by step. */
  lemma ParseSucceeded(url: string)
    requires Parse(url).0.Some?
    ensures '?' in ReplaceAll(url, TotpPrefix)
    ensures var (name, query) := SplitFirst(ReplaceAll(url, TotpPrefix), '?');
            var params := ParamTable(Split(query, '&'));
            "secret" in params
            && Parse(url).0.value == OtpAccount(name, params["secret"], if "issuer" in params then params["issuer"] else "")
  {
  }

  /** What a successful parse returns: the name is the text before the first
      `?` once every `otpauth://totp/` is removed, some parameter binds
      `secret`, and the issuer is empty when no parameter binds `issuer`. */
  lemma ParseFields(url: string)
    requires Parse(url).0.Some?
    ensures var rest := ReplaceAll(url, TotpPrefix);
            '?' in rest &&
            var parts := Split(SplitFirst(rest, '?').1, '&');
            Parse(url).0.value.name == SplitFirst(rest, '?').0
            && (exists i | 0 <= i < |parts| :: Binds(parts[i], "secret"))
            && ((forall i | 0 <= i < |parts| :: !Binds(parts[i], "issuer")) ==> Parse(url).0.value.issuer == "")
  {
    ParseSucceeded(url);
    var parts := Split(SplitFirst(ReplaceAll(url, TotpPrefix), '?').1, '&');
    ParamTableKeys(parts, "secret");
    ParamTableKeys(parts, "issuer");
  }

  /** `parse_otpauth_url`: the same steps as the source, filling the
      parameter table in a loop over the `&`-separated parts. */
  method ParseOtpauthUrl(url: string) returns (result: Option<OtpAccount>, message: string)
    ensures (result, message) == Parse(url)
  {
    if !StartsWith(url, Scheme) {
      return None, NotOtpauthMessage;
    }
    var rest := url;
    if Contains(rest, TotpPrefix) {
      rest := ReplaceAll(rest, TotpPrefix);
    } else {
      return None, NotTotpMessage;
    }
    if '?' !in rest {
      return None, MalformedMessage;
    }
    var (account, query) := SplitFirst(rest, '?');
    var parts := Split(query, '&');
    var params: map<string, string> := map[];
    var i := 0;
    while i < |parts|
      invariant 0 <= i <= |parts|
      invariant params == ParamTable(parts[..i])
    {
      var part := parts[i];
      if '=' in part {
        var (key, value) := SplitFirst(part, '=');
        params := params[key := value];
      }
      assert parts[..i + 1][..i] == parts[..i];
      i := i + 1;
    }
    assert parts[..i] == parts;
    if "secret" !in params {
      return None, NoSecretMessage;
    }
    var issuer := if "issuer" in params then params["issuer"] else "";
    return Some(OtpAccount(account, params["secret"], issuer)), ParsedMessage;
  }

  /** `key=value`, one query parameter. */
  function QueryPair(key: string, value: string): string {
    key + ['='] + value
  }

  /** The query of a printed URL: `secret={secret}&issuer={issuer}`. */
  function ManualQuery(secret: string, issuer: string): string {
    QueryPair("secret", secret) + ['&'] + QueryPair("issuer", issuer)
  }

  /** The URL a recovered account is printed as (recover_otp_keys.py):
      `otpauth://totp/{name}?secret={secret}&issuer={issuer}`. */
  function ManualUrl(name: string, secret: string, issuer: string): string {
    TotpPrefix + (name + ['?'] + ManualQuery(secret, issuer))
  }

  /** The text after the prefix of a printed URL has no occurrence of the
      prefix when no field has one. */
  lemma ManualRestHasNoPrefix(name: string, secret: string, issuer: string)
    requires !Contains(name, TotpPrefix) && !Contains(secret, TotpPrefix) && !Contains(issuer, TotpPrefix)
    ensures !Contains(name + ['?'] + ManualQuery(secret, issuer), TotpPrefix)
  {
    assert '=' !in TotpPrefix && '&' !in TotpPrefix && '?' !in TotpPrefix;
    NoOccurrenceKeyValue("secret", '=', secret, TotpPrefix);
    NoOccurrenceKeyValue("issuer", '=', issuer, TotpPrefix);
    NoOccurrenceAcross(QueryPair("secret", secret), '&', QueryPair("issuer", issuer), TotpPrefix);
    NoOccurrenceAcross(name, '?', ManualQuery(secret, issuer), TotpPrefix);
  }

  /** The key of a query parameter is the text before its first `=`. */
  lemma QueryPairSplits(key: string, value: string)
    requires '=' !in key
    ensures '=' in QueryPair(key, value)
    ensures SplitFirst(QueryPair(key, value), '=') == (key, value)
  {
    SplitAfterFirst(key, '=', value);
  }

  /** Two parameters with different keys fill the table with both. */
  lemma TwoParams(a: string, b: string)
    requires '=' in a && '=' in b
    requires SplitFirst(a, '=').0 != SplitFirst(b, '=').0
    ensures ParamTable([a, b])
         == map[SplitFirst(a, '=').0 := SplitFirst(a, '=').1, SplitFirst(b, '=').0 := SplitFirst(b, '=').1]
  {
    var (ka, va) := SplitFirst(a, '=');
    var (kb, vb) := SplitFirst(b, '=');
    assert [a, b][..1] == [a];
    assert [a][..0] == [];
    assert ParamTable([a]) == map[ka := va];
    assert ParamTable([a, b]) == map[ka := va][kb := vb];
  }

  /** The query of a printed URL yields exactly its two parameters. */
  lemma ManualQueryParams(secret: string, issuer: string)
    requires '&' !in secret && '&' !in issuer
    ensures ParamTable(Split(ManualQuery(secret, issuer), '&')) == map["secret" := secret, "issuer" := issuer]
  {
    var secretPart, issuerPart := QueryPair("secret", secret), QueryPair("issuer", issuer);
    assert '&' !in secretPart && '&' !in issuerPart;
    SplitJoin([secretPart, issuerPart], '&');
    assert Join([secretPart, issuerPart], '&') == ManualQuery(secret, issuer);
    assert '=' !in "secret" && '=' !in "issuer" && "secret" != "issuer";
    QueryPairSplits("secret", secret);
    QueryPairSplits("issuer", issuer);
    TwoParams(secretPart, issuerPart);
  }

  /** Parsing the printed URL of an account gives the account back, provided
      the name has no `?`, secret and issuer have no `&`, and no field
      contains the TOTP prefix (which the parser deletes everywhere). */
  lemma ParseRoundTrip(name: string, secret: string, issuer: string)
    requires '?' !in name && '&' !in secret && '&' !in issuer
    requires !Contains(name, TotpPrefix) && !Contains(secret, TotpPrefix) && !Contains(issuer, TotpPrefix)
    ensures Parse(ManualUrl(name, secret, issuer)) == (Some(OtpAccount(name, secret, issuer)), ParsedMessage)
  {
    var query := ManualQuery(secret, issuer);
    var rest := name + ['?'] + query;
    ManualRestHasNoPrefix(name, secret, issuer);
    ReplaceAllLeadingOnly(TotpPrefix, rest);
    assert StartsWith(TotpPrefix + rest, Scheme) by {
      assert (TotpPrefix + rest)[..|Scheme|] == TotpPrefix[..|Scheme|];
    }
    SplitAfterFirst(name, '?', query);
    ManualQueryParams(secret, issuer);
  }

  /** The printed URL, written as the format string writes it. */
  lemma ManualUrlFormat(name: string, secret: string, issuer: string)
    ensures ManualUrl(name, secret, issuer) == TotpPrefix + name + "?secret=" + secret + "&issuer=" + issuer
  {
    assert "?secret=" == ['?'] + "secret" + ['='];
    assert "&issuer=" == ['&'] + "issuer" + ['='];
  }

  /** The example of the `parse_otpauth_url` documentation (written in
      pieces only to keep the proof small). */
  lemma ParseDocumentedExample()
    ensures Parse("otpauth://totp/" + "Google:user@gmail.com" + "?secret=" + "JBSWY3DPEHPK3PXP" + "&issuer=" + "Google")
         == (Some(OtpAccount("Google:user@gmail.com", "JBSWY3DPEHPK3PXP", "Google")), ParsedMessage)
  {
    var name, secret, issuer := "Google:user@gmail.com", "JBSWY3DPEHPK3PXP", "Google";
    DocumentedExampleFields(name, secret, issuer);
    ParseRoundTrip(name, secret, issuer);
    ManualUrlFormat(name, secret, issuer);
  }

  /** The fields of the documented example meet the round trip's conditions. */
  lemma DocumentedExampleFields(name: string, secret: string, issuer: string)
    requires name == "Google:user@gmail.com" && secret == "JBSWY3DPEHPK3PXP" && issuer == "Google"
    ensures '?' !in name && '&' !in secret && '&' !in issuer
    ensures !Contains(name, TotpPrefix) && !Contains(secret, TotpPrefix) && !Contains(issuer, TotpPrefix)
  {
    assert TotpPrefix[14] == '/';
    NoOccurrenceWithoutChar(name, TotpPrefix, '/');
    DocumentedSecretHasNoPrefix(secret);
    ShortHasNoOccurrence(issuer, TotpPrefix);
  }

  /** The documented secret is upper-case, so it has no occurrence of the prefix. */
  lemma DocumentedSecretHasNoPrefix(secret: string)
    requires secret == "JBSWY3DPEHPK3PXP"
    ensures !Contains(secret, TotpPrefix)
  {
    assert TotpPrefix[0] == 'o';
    NoOccurrenceWithoutChar(secret, TotpPrefix, 'o');
  }

  /** A URL of another scheme is rejected with no record. */
  lemma ParseRejectsOtherScheme()
    ensures Parse("https://example.com") == (None, NotOtpauthMessage)
  {
    assert "https://example.com"[0] != Scheme[0];
  }
}
