/** The secret codec and the TOTP engine of `TOTPGenerator`
    (totp_generator.py): cleaning and validating Base32 secrets, deriving the
    6-digit code of RFC 6238 section 4.2 through the dynamic truncation of
    RFC 4226 section 5.3, and the seconds left in the current 30-second window.

    The clock is a parameter (`now`, whole Unix seconds). HMAC-SHA1 and the
    library's Base32 decoding of the secret into key bytes have no visible
    source here and are passed in as functions. */
module Totp {
  import opened Wrappers

  /** The time step, the attribute `period` that the generator never changes. */
  const Period: nat := 30
  /** Number of decimal digits of a code. */
  const Digits: nat := 6

  const TooShortMessage := "Chave muito curta (mínimo 8 caracteres)"
  const InvalidCharsMessage := "Chave contém caracteres inválidos"
  const ValidMessage := "Chave válida"
  /** What `generate_token` returns when the secret cannot be used. */
  const ErrorToken := "ERROR"

  /** An HMAC-SHA1 output: 20 bytes. */
  type Digest = s: seq<Byte> | |s| == 20 witness seq(20, _ => 0)

  /** A character of the Base32 alphabet of RFC 4648 section 6. */
  predicate IsBase32Char(c: char) {
    'A' <= c <= 'Z' || '2' <= c <= '7'
  }

  predicate IsBase32(s: string) {
    forall i | 0 <= i < |s| :: IsBase32Char(s[i])
  }

  /** `str.upper` restricted to ASCII: lower-case letters become upper-case,
      every other character is left as it is. */
  function UpperAscii(c: char): char {
    if 'a' <= c <= 'z' then (c as int - 32) as char else c
  }

  /** `clean_secret`: upper-case the secret, then drop every character outside
      the Base32 alphabet. The result is made of Base32 characters only. */
  function CleanSecret(secret: string): (cleaned: string)
    ensures IsBase32(cleaned)
    ensures |cleaned| <= |secret|
    decreases |secret|
  {
    if secret == [] then []
    else
      var c := UpperAscii(secret[0]);
      (if IsBase32Char(c) then [c] else []) + CleanSecret(secret[1..])
  }

  /** Cleaning works character by character: the cleaned form of a
      concatenation is the concatenation of the cleaned forms. */
  lemma {:induction false} CleanSecretConcat(a: string, b: string)
    ensures CleanSecret(a + b) == CleanSecret(a) + CleanSecret(b)
    decreases |a|
  {
    if a != [] {
      var c := UpperAscii(a[0]);
      var head := if IsBase32Char(c) then [c] else [];
      assert (a + b)[0] == a[0] && (a + b)[1..] == a[1..] + b;
      assert CleanSecret(a + b) == head + CleanSecret(a[1..] + b);
      CleanSecretConcat(a[1..], b);
      assert CleanSecret(a) == head + CleanSecret(a[1..]);
    } else {
      assert a + b == b;
    }
  }

  /** A secret is left unchanged by cleaning exactly when it is already made
      of Base32 characters only. */
  lemma {:induction false} CleanSecretFixedPoints(secret: string)
    ensures CleanSecret(secret) == secret <==> IsBase32(secret)
    decreases |secret|
  {
    if secret != [] && IsBase32(secret) {
      assert IsBase32Char(secret[0]);
      assert IsBase32(secret[1..]);
      CleanSecretFixedPoints(secret[1..]);
    }
  }

  /** Cleaning is idempotent. */
  lemma CleanSecretIdempotent(secret: string)
    ensures CleanSecret(CleanSecret(secret)) == CleanSecret(secret)
  {
    CleanSecretFixedPoints(CleanSecret(secret));
  }

  /** `str.upper` over a whole string, ASCII only. */
  function UpperAsciiAll(s: string): (r: string)
    ensures |r| == |s|
  {
    seq(|s|, i requires 0 <= i < |s| => UpperAscii(s[i]))
  }

  /** Every character of `s` is a Base32 character once upper-cased. */
  predicate AllKept(s: string) {
    forall i | 0 <= i < |s| :: IsBase32Char(UpperAscii(s[i]))
  }

  /** No character of `s` is a Base32 character once upper-cased. */
  predicate AllDropped(s: string) {
    forall i | 0 <= i < |s| :: !IsBase32Char(UpperAscii(s[i]))
  }

  /** Letters (of either case) and the digits 2 to 7 are kept, upper-cased. */
  lemma {:induction false} CleanSecretKeeps(s: string)
    requires AllKept(s)
    ensures CleanSecret(s) == UpperAsciiAll(s)
    decreases |s|
  {
    if s != [] {
      CleanSecretKeeps(s[1..]);
      assert UpperAsciiAll(s) == [UpperAscii(s[0])] + UpperAsciiAll(s[1..]);
    }
  }

  /** Separators such as spaces and dashes, and the digits 0, 1, 8 and 9,
      are dropped. */
  lemma {:induction false} CleanSecretDrops(s: string)
    requires AllDropped(s)
    ensures CleanSecret(s) == []
    decreases |s|
  {
    if s != [] {
      CleanSecretDrops(s[1..]);
    }
  }

  lemma CleanSecretAppendGroup(prefix: string, sep: string, group: string)
    requires AllDropped(sep) && AllKept(group)
    ensures CleanSecret(prefix + sep + group) == CleanSecret(prefix) + UpperAsciiAll(group)
  {
    CleanSecretDrops(sep);
    CleanSecretKeeps(group);
    CleanSecretConcat(prefix, sep);
    CleanSecretConcat(prefix + sep, group);
  }

  /** A secret written as four groups joined by a separator cleans to the
      four upper-cased groups run together. */
  lemma CleanSecretGroups(a: string, b: string, c: string, d: string, sep: string)
    requires AllKept(a) && AllKept(b) && AllKept(c) && AllKept(d) && AllDropped(sep)
    ensures CleanSecret(a + sep + b + sep + c + sep + d)
         == UpperAsciiAll(a) + UpperAsciiAll(b) + UpperAsciiAll(c) + UpperAsciiAll(d)
  {
    CleanSecretKeeps(a);
    CleanSecretAppendGroup(a, sep, b);
    CleanSecretAppendGroup(a + sep + b, sep, c);
    CleanSecretAppendGroup(a + sep + b + sep + c, sep, d);
  }

  /** The groups of the documented examples are kept, their separators
      dropped, and upper-casing them gives the cleaned secret. */
  lemma DocumentedDashedGroups()
    ensures AllKept("jbsw") && AllKept("y3dp") && AllKept("ehpk") && AllKept("3pxp") && AllDropped("-")
    ensures UpperAsciiAll("jbsw") + UpperAsciiAll("y3dp") + UpperAsciiAll("ehpk") + UpperAsciiAll("3pxp")
         == "JBSWY3DPEHPK3PXP"
  {
    assert UpperAsciiAll("jbsw") == "JBSW" && UpperAsciiAll("y3dp") == "Y3DP";
    assert UpperAsciiAll("ehpk") == "EHPK" && UpperAsciiAll("3pxp") == "3PXP";
    assert "JBSW" + "Y3DP" + "EHPK" + "3PXP" == "JBSWY3DPEHPK3PXP";
  }

  lemma DocumentedSpacedGroups()
    ensures AllKept("JBSW") && AllKept("Y3DP") && AllKept("EHPK") && AllKept("3PXP") && AllDropped(" ")
    ensures UpperAsciiAll("JBSW") + UpperAsciiAll("Y3DP") + UpperAsciiAll("EHPK") + UpperAsciiAll("3PXP")
         == "JBSWY3DPEHPK3PXP"
  {
    assert UpperAsciiAll("JBSW") == "JBSW" && UpperAsciiAll("Y3DP") == "Y3DP";
    assert UpperAsciiAll("EHPK") == "EHPK" && UpperAsciiAll("3PXP") == "3PXP";
    assert "JBSW" + "Y3DP" + "EHPK" + "3PXP" == "JBSWY3DPEHPK3PXP";
  }

  /** The examples of the `clean_secret` documentation: spaces and lower
      case are normalised away, */
  lemma CleanSecretSpacedExample()
    ensures CleanSecret("JBSW Y3DP EHPK 3PXP") == "JBSWY3DPEHPK3PXP"
  {
    DocumentedSpacedGroups();
    CleanSecretGroups("JBSW", "Y3DP", "EHPK", "3PXP", " ");
    assert "JBSW" + " " + "Y3DP" + " " + "EHPK" + " " + "3PXP" == "JBSW Y3DP EHPK 3PXP";
  }

  /** and so are dashes. */
  lemma CleanSecretDashedExample()
    ensures CleanSecret("jbsw-y3dp-ehpk-3pxp") == "JBSWY3DPEHPK3PXP"
  {
    DocumentedDashedGroups();
    CleanSecretGroups("jbsw", "y3dp", "ehpk", "3pxp", "-");
    assert "jbsw" + "-" + "y3dp" + "-" + "ehpk" + "-" + "3pxp" == "jbsw-y3dp-ehpk-3pxp";
  }

  /** `validate_secret`: a secret is accepted exactly when its cleaned form has
      at least 8 characters. The alphabet test of the source can no longer
      fail at that point, so its message is never produced. */
  function ValidateSecret(secret: string): (r: (bool, string))
    ensures r.0 <==> |CleanSecret(secret)| >= 8
    ensures r.1 == if r.0 then ValidMessage else TooShortMessage
  {
    var cleaned := CleanSecret(secret);
    if |cleaned| < 8 then (false, TooShortMessage)
    else if !IsBase32(cleaned) then (false, InvalidCharsMessage)
    else (true, ValidMessage)
  }

  /** Validating the cleaned form gives the same verdict as validating the raw
      input, so storing `clean_secret(secret)` after a successful validation
      stores a secret that is itself valid. */
  lemma ValidateCleanedSecret(secret: string)
    ensures ValidateSecret(CleanSecret(secret)) == ValidateSecret(secret)
  {
    CleanSecretIdempotent(secret);
  }

  /** Any Base32 string of 8 or more characters is its own cleaned form and
      is accepted. */
  lemma ValidBase32Accepted(secret: string)
    requires IsBase32(secret) && |secret| >= 8
    ensures CleanSecret(secret) == secret
    ensures ValidateSecret(secret) == (true, ValidMessage)
  {
    CleanSecretFixedPoints(secret);
  }

  /** The dynamic truncation of RFC 4226 section 5.3: the low nibble of the
      last byte selects four bytes, read big-endian with the top bit cleared.
      The bitwise `|` of the source joins disjoint bit ranges, so it is a sum. */
  function DynamicTruncation(h: Digest): (code: nat)
    ensures code < 0x8000_0000
  {
    var offset := h[19] % 16;
    (h[offset] as int % 128) * 0x100_0000 + (h[offset + 1] as int) * 0x1_0000
      + (h[offset + 2] as int) * 0x100 + h[offset + 3] as int
  }

  function Pow10(n: nat): (p: nat)
    ensures p >= 1
  {
    if n == 0 then 1 else 10 * Pow10(n - 1)
  }

  predicate IsDigit(c: char) {
    '0' <= c <= '9'
  }

  predicate IsDigits(s: string) {
    forall i | 0 <= i < |s| :: IsDigit(s[i])
  }

  /** The number a string of decimal digits denotes. */
  function DigitsValue(s: string): nat
    requires IsDigits(s)
  {
    if s == [] then 0 else 10 * DigitsValue(s[..|s| - 1]) + (s[|s| - 1] as int - '0' as int)
  }

  /** The format `{n:0wd}` for `n` below `10^w`: exactly `w` decimal digits,
      left-padded with zeros, that denote `n`. */
  function ZeroPad(n: nat, width: nat): (s: string)
    requires n < Pow10(width)
    ensures |s| == width && IsDigits(s)
    ensures DigitsValue(s) == n
  {
    if width == 0 then []
    else
      var digit := ('0' as int + n % 10) as char;
      var s := ZeroPad(n / 10, width - 1) + [digit];
      assert s[..|s| - 1] == ZeroPad(n / 10, width - 1);
      s
  }

  /** `generate_token` at time `now`: the code of the 30-second window that
      holds `now`, computed from the cleaned secret. The result is the error
      marker exactly when the secret cannot be decoded into key bytes, and is
      otherwise exactly six decimal digits. */
  function GenerateToken(secret: string, now: nat,
                         decode: string -> Option<seq<Byte>>,
                         hmac: (seq<Byte>, nat) -> Digest): (token: string)
    ensures token == ErrorToken <==> decode(CleanSecret(secret)).None?
    ensures token == ErrorToken || (|token| == Digits && IsDigits(token))
  {
    match decode(CleanSecret(secret))
    case None => ErrorToken
    case Some(key) =>
      var code := DynamicTruncation(hmac(key, now / Period)) % Pow10(Digits);
      var token := ZeroPad(code, Digits);
      token
  }

  /** A successful token denotes the truncated HMAC value reduced below 10^6. */
  lemma TokenValue(secret: string, now: nat, decode: string -> Option<seq<Byte>>,
                   hmac: (seq<Byte>, nat) -> Digest)
    requires decode(CleanSecret(secret)).Some?
    ensures var token := GenerateToken(secret, now, decode, hmac);
      IsDigits(token) &&
      DigitsValue(token) == DynamicTruncation(hmac(decode(CleanSecret(secret)).value, now / Period)) % 1_000_000 &&
      DigitsValue(token) < 1_000_000
  {
  }

  /** Two instants of the same 30-second window give the same code. */
  lemma SameWindowSameToken(secret: string, t1: nat, t2: nat,
                            decode: string -> Option<seq<Byte>>,
                            hmac: (seq<Byte>, nat) -> Digest)
    requires t1 / Period == t2 / Period
    ensures GenerateToken(secret, t1, decode, hmac) == GenerateToken(secret, t2, decode, hmac)
  {
  }

  /** The code depends on the secret only through its cleaned form. */
  lemma TokenDependsOnCleanedSecret(secret: string, now: nat,
                                    decode: string -> Option<seq<Byte>>,
                                    hmac: (seq<Byte>, nat) -> Digest)
    ensures GenerateToken(CleanSecret(secret), now, decode, hmac) == GenerateToken(secret, now, decode, hmac)
  {
    CleanSecretIdempotent(secret);
  }

  /** `get_time_remaining`: the number of seconds, between 1 and 30, from
      `now` to the next window boundary. */
  function TimeRemaining(now: int): (r: int)
    ensures 1 <= r <= Period
    ensures (now + r) % Period == 0
  {
    Period - now % Period
  }

  /** The documented values: 30 at a window boundary, 5 at 25 seconds in. */
  lemma TimeRemainingExamples(k: int)
    ensures TimeRemaining(Period * k) == 30
    ensures TimeRemaining(Period * k + 25) == 5
  {
  }

  /** The remaining time is exactly the rest of the current window: every
      instant before it lies in the window of `now`, and the instant it
      reaches starts the next window. */
  lemma {:induction false} TimeRemainingIsWindowRest(now: nat, d: nat)
    ensures d < TimeRemaining(now) ==> (now + d) / Period == now / Period
    ensures (now + TimeRemaining(now)) / Period == now / Period + 1
  {
    var q, m := now / Period, now % Period;
    assert now == Period * q + m;
    if d < TimeRemaining(now) {
      assert now + d == Period * q + (m + d) && m + d < Period;
    }
    assert now + TimeRemaining(now) == Period * (q + 1);
  }

  /** The displayed code stays the same for as long as the displayed
      countdown has not run out. */
  lemma TokenStableUntilExpiry(secret: string, now: nat, d: nat,
                               decode: string -> Option<seq<Byte>>,
                               hmac: (seq<Byte>, nat) -> Digest)
    requires d < TimeRemaining(now)
    ensures GenerateToken(secret, now + d, decode, hmac) == GenerateToken(secret, now, decode, hmac)
  {
    TimeRemainingIsWindowRest(now, d);
  }
}
