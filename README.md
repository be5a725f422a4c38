# Stateless password-reset tokens of the exchange API

This project models the password-reset scheme of the exchange API's views
(`exchange_api/api/views.py`) and proves its properties in Dafny:

- `PasswordResetRequest.generate_token`: the reset token is the first 32 hex
  characters of the SHA-256 digest of `"{email}-{id}-{password}-{bucket}"`,
  where `bucket` is the Unix time floored to the hour (`t - t % 3600`) and
  `password` is the stored password hash. No token is ever stored.
- `PasswordResetConfirm.check_token`: the presented token is accepted when it
  equals the token recomputed for the current hour bucket or one of the 23
  before it. The first match returns True. Any exception returns False.
- `PasswordResetConfirm.get` and `post`: they show the form or the
  "invalid link" page. `post` checks the two new-password fields in this
  order: both given, equal, at least 8 characters. Only then does it call
  `set_password`.

Files:

- `wrappers.dfy`: the `Option` and `Result` types.
- `decimal.dfy`: Python's `str()` of an int, and the proof that it is
  injective (it has an inverse).
- `token_scheme.dfy`: buckets, the canonical string, token generation, the
  acceptance rule `Accepts`, and the window and revocation lemmas.
- `reset_confirm.dfy`: `check_token` as a loop, the form checks, the `User`
  record that `set_password` updates, and the two handlers.

SHA-256 is not implemented. It is the parameter `h: string -> Option<string>`.
`h` maps the canonical string to its hex digest, or to `None` when encoding or
hashing raises. `IsSha256Hex(h)` says every digest is 64 lower-case hex
characters. `NeverRaises(h)` says `h` never fails. The clock is the parameter
`now`, the integer Unix time. Python's `%` with the positive divisor 3600 agrees
with Dafny's `%`, also for negative times.

Collisions are not assumed away globally. A 32-hex truncation cannot be
injective on all strings. Each rejection lemma instead requires `NoCollision`:
no candidate string of the 24-hour window hashes to the same truncated digest
as the issued token's string unless the two strings are equal.

What the proofs establish about a token issued at time `g`, with bucket
`B = g - g % 3600`:

- It is accepted at `now` exactly when `B <= now < B + 24*3600`
  (`TokenWindow`). A `now` before `B` never accepts it, so a clock behind the
  issuing clock is rejected.
- Measured from the moment of issue, it is accepted for at least the next
  23 hours and never at 24 hours or later (`TokenLifetime`). So its lifetime is
  between 23 and 24 hours, depending on the minute of issue. The comment at
  views.py:112 ("24 hours") matches the code. The comment at views.py:114
  ("1-hour validity window") does not. A token issued at minute 59 of an hour
  is still accepted for just over 23 hours, and one issued at minute 0 for
  just under 24 hours. This model follows the code.
- A token is never accepted after the user's password hash changes
  (`PasswordChangeRevokes`), for tokens issued from 1970 on and checks from
  1970-01-01 23:00 UTC on (`g >= 0`, `now >= 23*3600`). With a negative bucket
  the canonical string is ambiguous: the bucket prints as a negative number
  with its own '-' (`CanonicalAmbiguousBeforeEpoch`). The ambiguity also
  affects checks in the first 23 hours of 1970, because their 24-bucket
  window reaches back into negative buckets: a token issued at 3600 for the
  password "p-" is still accepted at 3600 for the password "p"
  (`RevocationFailsEarly1970`).

## Model

| member | source | states |
|---|---|---|
| `Decimal.IntToString` | exchange_api/api/views.py:116 | `str()` of an int is non-empty, starts with '-' exactly when the number is negative, and has digits everywhere else |
| `Decimal.IntToStringValue` | exchange_api/api/views.py:116 | the digits of `str(i)` after any sign denote the absolute value of `i` (checked against the independent parser `ValueOf`) |
| `Decimal.IntToStringInjective` | exchange_api/api/views.py:116 | two ints with the same `str()` are equal, so the id and bucket fields of the canonical string can be recovered |
| `TokenScheme.Bucket` | exchange_api/api/views.py:115 | `t - t % 3600` is a multiple of 3600, is at most `t`, is more than `t - 3600` (for every int `t`), and equals `(t / 3600) * 3600` |
| `TokenScheme.Canonical` | exchange_api/api/views.py:116 | the hashed string starts with "{email}-", ends with "-{bucket}", and its length is the sum of the four fields' lengths plus the three separators |
| `TokenScheme.HashToken` | exchange_api/api/views.py:117 | `hexdigest()[:32]` fails exactly when hashing fails; otherwise it is a prefix of the digest of length `min(32, len)` |
| `TokenScheme.GenerateToken` | exchange_api/api/views.py:109-117 | the token fails exactly when hashing `Canonical(u, Bucket(now))` fails; otherwise it is a prefix of at most 32 characters of that digest (exact shape in `TokenShape`, same-hour stability in `SameHourSameToken`) |
| `TokenScheme.Accepts` | exchange_api/api/views.py:186-197 | the meaning of `check_token`: some iteration `k < 24` recomputes the token and no earlier iteration raised; an accepted token matches one of the 24 candidates and is at most 32 characters long |
| `TokenScheme.TokenShape` | exchange_api/api/views.py:113-117 | with a 64-hex-character digest, a generated token is exactly 32 hex characters, a prefix of the digest of the canonical string |
| `TokenScheme.SameHourSameToken` | exchange_api/api/views.py:113-117 | two times in the same hour (`t1 // 3600 == t2 // 3600`) give the same token for the same user fields |
| `TokenScheme.CanonicalBucketInjective` | exchange_api/api/views.py:116 | for one user, the canonical string determines the bucket |
| `TokenScheme.CanonicalPasswordInjective` | exchange_api/api/views.py:116 | for the same email and id and non-negative buckets, the canonical string determines the password hash and the bucket |
| `TokenScheme.CanonicalAmbiguousBeforeEpoch` | exchange_api/api/views.py:116 | with a negative bucket, the password "p-" at bucket 3600 and "p" at bucket -3600 give the same canonical string |
| `TokenScheme.AcceptsWithoutRaising` | exchange_api/api/views.py:186-197 | when hashing never raises, a token is accepted iff one of the 24 candidates `bucket(now) - k*3600`, `k` in 0..23, recomputes it |
| `TokenScheme.RaiseRejects` | exchange_api/api/views.py:186-197 | if hashing raises at iteration `j` before any match, the check answers False |
| `TokenScheme.AcceptedInWindow` | exchange_api/api/views.py:189-194 | a token generated at `g` is accepted at every `now` with `bucket(g) <= now < bucket(g) + 24*3600`, via candidate `k = now//3600 - g//3600` |
| `TokenScheme.RejectedOutsideWindow` | exchange_api/api/views.py:189-195 | without a collision, a token generated at `g` is rejected at every `now` before `bucket(g)` or at or after `bucket(g) + 24*3600` |
| `TokenScheme.TokenWindow` | exchange_api/api/views.py:189-195 | the window is exact: accepted iff `bucket(g) <= now < bucket(g) + 24*3600` |
| `TokenScheme.TokenLifetime` | exchange_api/api/views.py:112-115 | accepted for every `now` in `[g, g + 23h]`, rejected from `g + 24h` on and before `bucket(g)` |
| `TokenScheme.PasswordChangeRevokes` | exchange_api/api/views.py:189-193 | a token made for a user is never accepted once the stored password hash differs (same email and id, issue from 1970 on, checks from 1970-01-01 23:00 UTC on) |
| `TokenScheme.RevocationFailsEarly1970` | exchange_api/api/views.py:189-193 | the bound on `now` is needed: with a digest that never raises or collides, a token issued at 3600 for password "p-" is accepted at 3600 for password "p", through the candidate bucket -3600 |
| `ResetConfirm.CheckToken` | exchange_api/api/views.py:182-197 | the loop answers exactly `Accepts`: True iff some iteration `k < 24` recomputes the token with no raise before it; a raise answers False; the user is only read |
| `ResetConfirm.ValidateNewPassword` | exchange_api/api/views.py:146-168 | a missing or empty field is reported first, then a mismatch, then a length under 8; success iff both fields are non-empty, equal and at least 8 long, and carries `password1` |
| `ResetConfirm.MessageDistinct` | exchange_api/api/views.py:149-165 | the three form errors render three distinct messages, so the message shown identifies the failing check |
| `ResetConfirm.User.SetPassword` | exchange_api/api/views.py:170 | the stored hash becomes the hasher's result for the new raw password |
| `ResetConfirm.ConfirmGet` | exchange_api/api/views.py:123-136 | the form is shown iff the user exists and the token is accepted now; otherwise the page is "invalid link" |
| `ResetConfirm.ConfirmPost` | exchange_api/api/views.py:138-180 | "invalid link" when the user is missing or the token is not accepted; otherwise the form with the message of the first failing check, or success with the password set to the hash of `password1`; the password is unchanged unless the result is success |

## Left out

- `EventList` and `CurrencyList` (views.py:20-70): ORM queries and serializer delegation with no local logic.
- `UserAuthentication` (views.py:72-85): a single call to Django's `check_password`, a hasher this model cannot see.
- `PasswordResetRequest.post` (views.py:90-107): the user lookup by email, the link built from `request.scheme` and `get_host()`, and `send_mail` are I/O. Its token is `GenerateToken`.
- Base64 decoding of the user id and the `User.objects.get` lookup (views.py:125-126, 140-141): they are the `user: User?` parameter. Null stands for a decode error or a missing user, which both give the "invalid link" page.
- `user.save()` (views.py:171): persistence is not modelled. `set_password`'s salted hasher is the parameter `makePassword`.
- The `token` and `uidb64` values echoed into the rendered form are not modelled. `Page` keeps only which page is shown and its error.
- SHA-256 and `str.encode()`: an abstract parameter. In Python only `encode()` can realistically raise, on a lone surrogate. Dafny's `char` has no surrogates, so `None` is kept as an abstract failure.
- `timezone.now().timestamp()` and its `int()` truncation: `now` is the already-truncated integer time.
- The schema migration `0004_remove_user_is_active_remove_user_is_admin_and_more.py`: declarative, no behaviour.
- AcceptedInWindow: requires `NeverRaises`, because a raise in an earlier iteration would end the check with False (see `RaiseRejects`).
- RejectedOutsideWindow: requires `NoCollision` over the 24 candidate strings, because a 32-hex truncation of SHA-256 can collide.
- TokenWindow: requires `NeverRaises` and `NoCollision`, for the same reasons as `AcceptedInWindow` and `RejectedOutsideWindow`.
- TokenLifetime: requires `NeverRaises` and `NoCollision`, as `TokenWindow` does.
- PasswordChangeRevokes: requires `NoCollision`, and requires `g >= 0` and `now >= 23*3600` so that every bucket compared is non-negative. With a negative bucket the format is ambiguous (`CanonicalAmbiguousBeforeEpoch`), and the property fails for checks in the first 23 hours of 1970 (`RevocationFailsEarly1970`).
