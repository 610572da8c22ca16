/** The rule the add-account dialog (add_account_dialog.py) applies before
    anything reaches the credential store: a name and a secret are required,
    the secret must pass `validate_secret`, and it is stored cleaned. */
module AddAccountForm {
  import opened Strings
  import opened Totp

  const NameRequiredMessage := "Nome da conta é obrigatório"
  const SecretRequiredMessage := "Chave secreta é obrigatória"
  const InvalidSecretPrefix := "Chave secreta inválida:\n"

  /** What the dialog does with a submission: an error shown to the user,
      or the record handed to the store. */
  datatype Submission =
    | Rejected(message: string)
    | Accepted(name: string, secret: string, issuer: string)

  /** `add_account`: strip the three fields, then check name, secret and
      the secret's validity in that order. */
  function Submit(name: string, secret: string, issuer: string): (r: Submission)
    ensures r.Accepted? <==> Strip(name) != [] && Strip(secret) != [] && |CleanSecret(Strip(secret))| >= 8
    ensures r.Accepted? ==> r.name == Strip(name) && r.issuer == Strip(issuer)
    ensures r.Accepted? ==> IsBase32(r.secret) && |r.secret| >= 8
    ensures r.Accepted? ==> r.secret == CleanSecret(Strip(secret))
    ensures Strip(name) == [] ==> r == Rejected(NameRequiredMessage)
    ensures Strip(name) != [] && Strip(secret) == [] ==> r == Rejected(SecretRequiredMessage)
    ensures Strip(name) != [] && Strip(secret) != [] && |CleanSecret(Strip(secret))| < 8 ==>
              r == Rejected(InvalidSecretPrefix + TooShortMessage)
  {
    var name, secret, issuer := Strip(name), Strip(secret), Strip(issuer);
    if name == [] then Rejected(NameRequiredMessage)
    else if secret == [] then Rejected(SecretRequiredMessage)
    else
      var (valid, message) := ValidateSecret(secret);
      if !valid then Rejected(InvalidSecretPrefix + message)
      else Accepted(name, CleanSecret(secret), issuer)
  }

  /** A secret written in spaced groups is accepted and stored as its
      Base32 characters alone. */
  lemma SubmitSpacedSecret()
    ensures Submit("user@example.com", "JBSW Y3DP EHPK 3PXP", "Example")
         == Accepted("user@example.com", "JBSWY3DPEHPK3PXP", "Example")
  {
    StripUnchanged("user@example.com");
    StripUnchanged("JBSW Y3DP EHPK 3PXP");
    StripUnchanged("Example");
    CleanSecretSpacedExample();
  }

  /** A blank name is refused before the secret is looked at. */
  lemma SubmitBlankName(secret: string, issuer: string)
    ensures Submit("  ", secret, issuer) == Rejected(NameRequiredMessage)
  {
    StripEmpty("  ");
  }
}
