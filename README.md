# OTP-pyAuth core in Dafny

A model of the core of OTP-pyAuth, a desktop TOTP authenticator. The model has three parts, plus the rule the dialog applies before saving.

- **The TOTP engine** (`TOTPGenerator`, totp_generator.py). It normalises and validates Base32 secrets and derives the six-digit code of RFC 6238 section 4.2 with the dynamic truncation of RFC 4226 section 5.3. It also computes the seconds left in the current 30-second window and parses `otpauth://totp/` URLs.
- **The credential store** (`Database`, database.py). This is an `accounts` table whose `secret` column holds `base64(Fernet(secret))`. It is opened by `setup_encryption` and `setup_database`, and offers add, list (sorted by name, decrypted, undecryptable rows skipped), delete and update.
- **The settings object** (`ConfigManager`, config_manager.py). It holds the default settings and the recursive merge of config.json over them, read by a dotted path (`get`) and written by a dotted path (`set`).
- **The add-account dialog's check** (add_account_dialog.py). It strips the fields, requires a name and a secret, validates the secret and stores its cleaned form.

Files:

- `wrappers.dfy`: `Option` and the `Byte` type.
- `strings.dfy`: the Python `str` operations the core relies on: `startswith`, the substring test, `replace(p, '')`, `split`, `split(c, 1)`, `strip`, and the code-point order used by `ORDER BY name`.
- `totp.dfy`: `clean_secret`, `validate_secret`, `generate_token` and `get_time_remaining`.
- `otpauth_url.dfy`: `parse_otpauth_url`, both as a function and as the loop the source runs. It also covers the manual URL that recover_otp_keys.py prints.
- `base64.dfy`: the Base64 envelope of RFC 4648 section 4, with its round trip.
- `database.dfy`: the `Database` class, its table as a sequence of rows, and the listing, sorting, delete and update functions it is proved against.
- `config.dfy`: the JSON value type, the defaults, the merge, `get` and `set`, and the `ConfigManager` class.
- `add_account_form.dfy`: the add-account dialog's check.

Where the code and its documentation disagree, the model follows the code:

- `parse_otpauth_url` does not require `otpauth://totp/` to be a prefix. It only requires the text to occur somewhere in the URL, and it removes every occurrence before splitting (totp_generator.py:200-201). `Parse` models that as written.
- `validate_secret` has a branch for "invalid characters". It cannot be reached, because the string it tests is already cleaned to Base32 characters only. `Totp.ValidateSecret` keeps the branch and proves that it never fires.

## Model

Five functions are reference definitions rather than properties in their
own right: they carry no contract of their own, and the rows below that
state what they mean are

- `CredentialStore.Listed` (the accounts the listing loop collects):
  `ListedMembers`, `ListedLength`, `ListedAppend`, `ListedPermutation`,
  `ListedNames`, `ListedSorted`, and `Database.GetAllAccounts`, whose result
  is proved to be a name-ordered permutation of it;
- `OtpauthUrl.ParamTable` (the query parameters as a dictionary):
  `ParamTableKeys` and `ParamTableLastWins`;
- `OtpauthUrl.ManualUrl` (the URL written for manual entry):
  `ManualUrlFormat` and `ParseRoundTrip`;
- `Config.Lookup` (the value under a key path, if any): `GetAfterSet`,
  `SetFrame`, `PutFails` and `ConfigManager.Get`;
- `Config.GetOr` (`get` with its default): `GetTwoKeys`, the three `Get`
  examples and `ConfigManager.Get`.

| member | source | states |
|---|---|---|
| Totp.CleanSecret | totp_generator.py:53-71 | the cleaned secret is made of `A-Z2-7` only and is never longer than the input |
| Totp.CleanSecretConcat | totp_generator.py:71 | cleaning works character by character: cleaning a concatenation gives the concatenation of the cleaned parts |
| Totp.CleanSecretFixedPoints | totp_generator.py:71 | cleaning leaves a secret unchanged if and only if it is already all Base32 characters |
| Totp.CleanSecretIdempotent | totp_generator.py:71 | cleaning twice is the same as cleaning once |
| Totp.CleanSecretKeeps | totp_generator.py:71 | letters of either case and the digits 2-7 are kept, upper-cased |
| Totp.CleanSecretDrops | totp_generator.py:71 | spaces, dashes and other non-alphabet characters are all removed |
| Totp.CleanSecretGroups | totp_generator.py:60-71 | a secret written as four groups joined by a separator cleans to the upper-cased groups run together |
| Totp.CleanSecretSpacedExample | totp_generator.py:66-67 | `"JBSW Y3DP EHPK 3PXP"` cleans to `"JBSWY3DPEHPK3PXP"` |
| Totp.CleanSecretDashedExample | totp_generator.py:68-69 | `"jbsw-y3dp-ehpk-3pxp"` cleans to `"JBSWY3DPEHPK3PXP"` |
| Totp.ValidateSecret | totp_generator.py:96-106 | valid if and only if the cleaned secret has at least 8 characters; the message is "Chave válida" when valid and the too-short message otherwise |
| Totp.ValidateCleanedSecret | totp_generator.py:96-102 | validating the cleaned secret gives the same verdict and message as validating the raw one |
| Totp.ValidBase32Accepted | totp_generator.py:90-92 | every Base32 string of 8 or more characters is its own cleaned form and is accepted |
| Totp.DynamicTruncation | totp_generator.py:123-128 | the 31-bit value read at the offset given by the low nibble of the last HMAC byte is below 2^31 |
| Totp.ZeroPad | totp_generator.py:137 | `{n:06d}` for n below 10^6 gives exactly six decimal digits that denote n |
| Totp.GenerateToken | totp_generator.py:133-139 | the result is "ERROR" if and only if the cleaned secret cannot be decoded into key bytes; otherwise it is exactly six digits |
| Totp.TokenValue | totp_generator.py:123-137 | a successful code denotes the dynamic truncation of HMAC(key, now / 30), taken modulo 10^6 |
| Totp.SameWindowSameToken | totp_generator.py:110-114 | two instants in the same 30-second window give the same code |
| Totp.TokenDependsOnCleanedSecret | totp_generator.py:134 | the code depends on the secret only through its cleaned form |
| Totp.TimeRemaining | totp_generator.py:141-151 | the result lies between 1 and 30, and `now` plus the result is a window boundary |
| Totp.TimeRemainingExamples | totp_generator.py:147-149 | 30 seconds at a window boundary, 5 seconds at 25 seconds into the window |
| Totp.TimeRemainingIsWindowRest | totp_generator.py:141-151 | every instant before the remaining time runs out lies in the current window, and the instant it reaches starts the next window |
| Totp.TokenStableUntilExpiry | totp_generator.py:133-151 | the displayed code does not change while the displayed countdown has not run out |
| Strings.ReplaceAll | totp_generator.py:201 | `replace(p, '')` never makes a text longer |
| Strings.ReplaceAllAbsent | totp_generator.py:201 | removing a pattern from a text that does not contain it changes nothing |
| Strings.ReplaceAllLeadingOnly | totp_generator.py:200-201 | when the prefix occurs only at the start, the substring test succeeds and removing it leaves the rest |
| Strings.SplitFirst | totp_generator.py:206 | `split(c, 1)` gives the text before the first `c` (which holds no `c`) and the text after it; joined with `c` they give back the input |
| Strings.Split | config_manager.py:198 | `split(c)` is never empty, and no piece contains `c` |
| Strings.JoinSplit | config_manager.py:198 | joining the pieces of `split(c)` with `c` gives back the text |
| Strings.SplitJoin | config_manager.py:198 | splitting the join of pieces that hold no `c` gives back the pieces |
| Strings.TrimStart | add_account_dialog.py:279-281 | removes exactly a leading run of whitespace; the result does not start with whitespace |
| Strings.TrimEnd | add_account_dialog.py:279-281 | removes exactly a trailing run of whitespace; the result does not end with whitespace |
| Strings.Strip | add_account_dialog.py:279-281 | the result neither starts nor ends with whitespace |
| Strings.StripUnchanged | add_account_dialog.py:279-281 | a text without whitespace at either end is left unchanged |
| Strings.StripEmpty | add_account_dialog.py:283-291 | stripping gives the empty string if and only if the text is all whitespace |
| Strings.LessEqTotal | database.py:284 | any two names are ordered one way or the other |
| Strings.LessEqTransitive | database.py:284 | the name order is transitive |
| Strings.LessEqAntisymmetric | database.py:284 | names ordered both ways are equal |
| OtpauthUrl.ParamTableKeys | totp_generator.py:212-216 | a key is in the parameter table if and only if some `&`-separated part binds it with `=` |
| OtpauthUrl.ParamTableLastWins | totp_generator.py:212-216 | when a key is bound more than once, the last binding wins |
| OtpauthUrl.Parse | totp_generator.py:196-227 | success if and only if the message is the success message; failures carry one of the four error messages; success needs the `otpauth://` prefix and the `otpauth://totp/` substring, and gives a name without `?` |
| OtpauthUrl.ParseMessages | totp_generator.py:197-208 | the scheme message exactly when the URL does not start with `otpauth://`; the TOTP message exactly when it does but lacks `otpauth://totp/`; the malformed message exactly when both hold but no `?` is left once every `otpauth://totp/` is removed |
| OtpauthUrl.ParseMissingSecret | totp_generator.py:212-227 | once those three checks pass, the missing-secret message is given exactly when no `&`-separated part of the query binds `secret`, and the URL parses exactly when some part does |
| OtpauthUrl.ParseFields | totp_generator.py:200-225 | on success the name is the text before the first `?` once every `otpauth://totp/` is removed, some parameter binds `secret`, and the issuer is empty when no parameter binds `issuer` |
| OtpauthUrl.ParseOtpauthUrl | totp_generator.py:196-227 | the loop over the `&`-separated parameters returns exactly what `Parse` defines |
| OtpauthUrl.ManualQueryParams | totp_generator.py:212-216 | the query `secret=S&issuer=I` parses to exactly the two parameters `secret` and `issuer` |
| OtpauthUrl.ParseRoundTrip | totp_generator.py:196-227 | parsing the manual URL `otpauth://totp/{name}?secret={secret}&issuer={issuer}` gives back name, secret and issuer, when the name has no `?`, the secret and issuer have no `&`, and no field contains `otpauth://totp/` |
| OtpauthUrl.ManualUrlFormat | recover_otp_keys.py:82 | the manual URL is the prefix, the name, `?secret=`, the secret, `&issuer=` and the issuer, in that order |
| OtpauthUrl.ParseDocumentedExample | totp_generator.py:186-194 | the documented Google URL parses to its name, secret and issuer with the success message |
| OtpauthUrl.ParseRejectsOtherScheme | totp_generator.py:197-198 | a URL that does not start with `otpauth://` is refused with its message |
| Base64.ValueOfCharOf | database.py:215 | every alphabet character is read back as its value |
| Base64.Encode | database.py:196 | the encoding has 4 characters per started group of three bytes |
| Base64.Decode | database.py:215 | text whose length is not a multiple of four is rejected; a result has at most 3 bytes per 4 characters |
| Base64.DecodeEncode | database.py:196 | decoding the encoding of any byte string gives back that byte string |
| Base64.EncodeInjective | database.py:196 | different byte strings never have the same encoding |
| CredentialStore.DecryptSecret | database.py:215 | an envelope that is not valid Base64 cannot be decrypted |
| CredentialStore.EncryptSecret | database.py:181-196 | unwrapping the Base64 envelope gives back exactly the Fernet token of the secret |
| CredentialStore.DecryptEncrypt | database.py:181-215 | under a cipher whose open undoes its seal, decrypting an encrypted secret gives back the secret |
| CredentialStore.DecryptRow | database.py:291-295 | a row reads as an account exactly when its secret decrypts, and then as its id, name, decrypted secret and issuer |
| CredentialStore.ListedAppend | database.py:290-298 | listing the concatenation of two runs of rows is the concatenation of their listings |
| CredentialStore.ListedMembers | database.py:290-298 | an account is listed if and only if some row reads as it |
| CredentialStore.ListedLength | database.py:290-298 | the listing is never longer than the table, and is as long when every row decrypts |
| CredentialStore.ListedPermutation | database.py:284-298 | rows that are a permutation of each other list to accounts that are a permutation of each other |
| CredentialStore.ListedNames | database.py:290-295 | every listed account carries the name of a row of the table |
| CredentialStore.InsertByName | database.py:284 | insertion adds exactly the new row to the multiset of rows |
| CredentialStore.InsertByNameSorted | database.py:284 | insertion into rows sorted by name keeps them sorted |
| CredentialStore.SortByName | database.py:284 | `ORDER BY name` returns a permutation of the rows |
| CredentialStore.SortByNameSorted | database.py:284 | `ORDER BY name` returns the rows in name order |
| CredentialStore.ListedSorted | database.py:284-301 | skipping rows that cannot be read keeps the name order |
| CredentialStore.WithoutId | database.py:325 | a row survives the delete if and only if it is a row of the table with a different id; the table never grows |
| CredentialStore.WithoutIdUnique | database.py:325 | deleting keeps the ids unique |
| CredentialStore.WithoutAbsentId | database.py:325 | deleting an id that is not in the table changes nothing |
| CredentialStore.Updated | database.py:344-348 | the table keeps its length, ids and creation times; rows with another id are unchanged; the row with the id gets the new name, secret and issuer |
| CredentialStore.UpdatedIds | database.py:344-348 | updating never changes the set of ids |
| CredentialStore.UpdatedAbsentId | database.py:344-348 | updating an id that is not in the table changes nothing |
| CredentialStore.ListedAfterAdd | database.py:236-253 | a row just added with an id above every stored id is listed last, as the account that was added, and no account listed before it has that id |
| CredentialStore.ListedAfterDelete | database.py:320-325 | after a delete, no listed account has the deleted id |
| CredentialStore.ListedAfterUpdate | database.py:337-348 | after an update of an existing id, that id is listed with the new name, secret and issuer |
| CredentialStore.Database.constructor | database.py:60-78 | the key is the one in key.key, or a newly generated one that is also written there; the table exists; rows and counter are those on disk |
| CredentialStore.Database.SetupEncryption | database.py:122-139 | an existing key file is kept, and a missing one is created with the generated key; the key in use is the file's; the table is untouched |
| CredentialStore.Database.SetupDatabase | database.py:157-179 | the table exists afterwards, and existing rows and the counter are kept (`CREATE TABLE IF NOT EXISTS`) |
| CredentialStore.Database.AddAccount | database.py:236-253 | the new id is one past the AUTOINCREMENT counter and differs from every existing id; exactly one row with the encrypted secret is appended |
| CredentialStore.Database.DeleteAccount | database.py:320-333 | exactly the rows with the id are removed; an absent id changes nothing |
| CredentialStore.Database.UpdateAccount | database.py:337-356 | exactly the row with the id gets the new name, re-encrypted secret and issuer; ids are unchanged; an absent id changes nothing |
| CredentialStore.Database.GetAllAccounts | database.py:276-305 | empty when the database file is missing or cannot be read; otherwise in name order and a permutation of the decryptable rows, read as accounts |
| Config.DefaultConfig | config_manager.py:88-110 | the defaults have exactly the sections `hotkeys`, `ui`, `tray` and `update` |
| Config.Merged | config_manager.py:144-151 | the merge has exactly the default keys |
| Config.MergedKeepsDefaults | config_manager.py:144-151 | unknown user keys are dropped; keys the user lacks keep their default; a non-dictionary user value replaces the default; a default dictionary stays a dictionary if and only if the user has nothing there or a dictionary |
| Config.MergedSelf | config_manager.py:144-151 | merging the defaults into themselves changes nothing |
| Config.MergedEmpty | config_manager.py:144-151 | merging an empty user file changes nothing |
| Config.MergedIdempotent | config_manager.py:129-151 | merging is idempotent: merging the result of a merge again gives the same result |
| Config.MergeConfig | config_manager.py:144-151 | the loop over the user's keys, recursing into nested dictionaries, computes the merge |
| Config.LoadConfig | config_manager.py:129-142 | the loaded settings always have exactly the default sections; a missing, unreadable or non-object file gives the defaults |
| Config.LoadSaved | config_manager.py:129-178 | saving the loaded settings and loading them again gives the same settings |
| Config.Put | config_manager.py:221-227 | a successful set keeps a dictionary whose keys are the old ones plus the first key of the path |
| Config.PutIntoEmpty | config_manager.py:207-227 | every path can be set in an empty dictionary, since missing intermediate dictionaries are created |
| Config.PutFails | config_manager.py:221-227 | set fails (a `TypeError`) if and only if the settings are not a dictionary, or some proper prefix of the path leads to a value that is not a dictionary |
| Config.GetAfterSet | config_manager.py:180-227 | after a successful set, looking up the same path gives the value that was set |
| Config.SetFrame | config_manager.py:221-227 | a set changes no path that is neither a prefix nor an extension of the set path |
| Config.Path | config_manager.py:198 | a dotted path always has at least one key |
| Config.PathOfTwo | config_manager.py:198 | `a.b` with no dot in `a` or `b` splits into the keys `a` and `b` |
| Config.GetTwoKeys | config_manager.py:198-205 | `get("a.b", d)` is the value under `b` of the dictionary under `a`, and `d` when either lookup fails |
| Config.GetToggleWindowExample | config_manager.py:191-192 | `get('hotkeys.toggle_window')` on the defaults is `'ctrl+shift+a'` |
| Config.GetMarginExample | config_manager.py:193-194 | `get('ui.margin')` on the defaults is 20 |
| Config.GetFallbackExample | config_manager.py:195-196 | `get('nonexistent.key', 'fallback')` on the defaults is `'fallback'` |
| Config.ConfigManager.constructor | config_manager.py:45-48 | the settings are what `load_config` makes of config.json, and always a dictionary |
| Config.ConfigManager.Get | config_manager.py:198-205 | the loop walking the keys returns the value at the path, or the default when a key is missing or a value along the way is not a dictionary |
| Config.ConfigManager.Set | config_manager.py:221-227 | succeeds if and only if the path can be set; on success the settings become the value with the path set; on failure (the source's `TypeError`) the settings are unchanged |
| AddAccountForm.Submit | add_account_dialog.py:277-303 | a submission is accepted if and only if the stripped name and secret are non-empty and the stripped secret cleans to at least 8 characters; an accepted record holds the stripped name and issuer and, as secret, exactly `clean_secret` of the stripped secret, which is Base32 and at least 8 characters long; a blank name gets the name error, a blank secret the secret error, and a secret cleaning to fewer than 8 characters the invalid-secret message with the too-short reason |
| AddAccountForm.SubmitSpacedSecret | add_account_dialog.py:279-303 | a secret typed in spaced groups is stored as its bare Base32 characters |
| AddAccountForm.SubmitBlankName | add_account_dialog.py:283-286 | a whitespace-only name is refused with the name error |

## Left out

- The graphical parts of the application are not part of this model: authenticator_app.py, token_widget.py, the rest of add_account_dialog.py and main.py. The dialog's check is modelled as a function from the three field texts to the result.
- The clock is a parameter `now` holding whole Unix seconds. The floating-point `time.time()` and its truncation by `int` are not modelled.
- `get_progress_percentage` is not modelled, because it computes a floating-point value.
- HMAC-SHA1 and pyotp's Base32 decoding of the secret are function parameters of `GenerateToken`. Their bodies are not part of this model.
- Totp.ValidateSecret: does not model the `except` branch around `pyotp.TOTP(cleaned_secret)`. With default arguments that constructor only stores the secret, so the branch cannot be taken.
- Strings.Strip: removes only six characters: space, tab (`\t`), line feed (`\n`), carriage return (`\r`), vertical tab (`\x0b`) and form feed (`\x0c`). Python's `str.strip` also removes U+001C to U+001F and non-ASCII whitespace.
- Totp.CleanSecret: upper-cases ASCII letters only. Python's `str.upper` also maps some non-ASCII letters, for example `ß` to `SS`.
- OtpauthUrl.Parse: does not model the `except` branch of `parse_otpauth_url`. No operation in the `try` block can raise on a string.
- Percent-encoding in URLs is not modelled. The source does not decode it either.
- Base64.Decode: is strict. It rejects any character outside the alphabet and any misplaced padding. `base64.b64decode` without `validate=True` instead skips stray characters, but the store only decodes text it encoded itself.
- Fernet is an abstract `Cipher`: `seal` takes the randomness of one encryption as a `Nonce` parameter, and `open` may fail. Its AES and HMAC internals and its timestamp are not modelled. Tamper detection is assumed through `open` returning `None`.
- CredentialStore.Database.AddAccount: does not model SQLite errors or the AUTOINCREMENT limit of 2^63-1. The same applies to DeleteAccount and UpdateAccount: their error paths re-raise and are not modelled.
- CredentialStore.Database.GetAllAccounts: states name order and a permutation only. SQLite leaves the relative order of rows with equal names unspecified, so the model does not fix it.
- SQLite's `created_at` default is the `now` parameter of `AddAccount`.
- The orphaning of existing rows when key.key is deleted and a new key is generated is not modelled beyond what `SetupEncryption` states.
- `get_app_directory`, `get_config_path`, `get_database_info` and the `print` logging are not modelled, because they concern file paths and console output.
- The accessors `get_hotkeys`, `get_ui_config`, `get_tray_config` and `get_update_config` are not modelled. Each is one dictionary lookup of a top-level section.
- Reading and writing config.json are not modelled. `ConfigFile` gives what the file held (absent, unreadable or parsed), and `save_config` appears only as the value it writes, in `LoadSaved`.
- Config.SetFrame: covers only paths that are neither a prefix nor an extension of the set path. A proper prefix of the set path does change: after `set("a.b", v)`, `get("a")` returns a dictionary that now holds `b`.
- Config.ConfigManager.Set: treats the `self.save_config()` call at the end of `set` (config_manager.py:228) as a no-op, because writing config.json is not modelled; only the in-memory settings change.
- CredentialStore.Database.SetupEncryption: does not model the error exits of `setup_encryption` and `setup_database`, which log and re-raise (database.py:138-140, 177-179). In particular `Fernet(self.key)` raises when key.key does not hold a 32-byte url-safe Base64 key; the model accepts any bytes on disk as the key and always succeeds. The same holds for CredentialStore.Database.SetupDatabase and CredentialStore.Database.constructor.
- Default arguments are explicit parameters: `get(path, default=None)` (config_manager.py:180) takes its default as a `Json` argument (`Null` for `None`), and `issuer=""` of `add_account` and `update_account` (database.py:217, 335) is passed explicitly.
- JSON numbers are integers in the model. Floating-point values are not modelled.
- `merge_config` and `set` update Python dictionaries in place through aliases. The model computes the same resulting value over an immutable `Json` tree, so sharing between dictionaries is not modelled.
- recover_otp_keys.py is used only for the manual URL format it prints. Its direct database reads are not modelled.
