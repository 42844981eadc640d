# Member lifecycle and Email value: a Dafny model

This project models the domain core of the splearn membership service.

- **`Email`** (module `EmailAddress`, file `email.dfy`) is an immutable record. It holds one address string. Construction rejects a null address with `requireNonNull`. It rejects an address that does not fully match the email pattern with an `IllegalArgumentException` whose message is `Invalid email address: <address>`. The pattern is read as a sequence of regular-expression elements: literal characters, the anchors `^` and `$`, and a bracket class followed by `+`. Matching follows `java.util.regex` for `Matcher.matches()` with the default flags. `^` holds only at index 0. `$` holds at the end of the input, or just before a line terminator that ends it, but not between the `\r` and `\n` of a final `\r\n`. The whole input must be consumed. `Create` returns a `ValidEmail`, the subset of `Email` whose address the pattern accepts, so a value of that type cannot hold an invalid address.
- **`Member`** (module `MemberLifecycle`, file `member.dfy`) is a class with four fields: `email`, `nickname`, `passwordHash` and `status`. The static factory `Create` fills in a blank object field by field from a `MemberCreateInfo` and a `PasswordEncoder`, and the new member starts `Pending`. `Activate` moves `Pending` to `Active`. `Deactivate` moves `Active` to `Deactivated`. Each checks its guard before it assigns, so a rejected call changes nothing. `VerifyPassword` asks the encoder whether a candidate matches the stored hash.
- The transition table is also stated as pure functions: `Transition`, `After`, `Run` and `Trace`. The lifecycle lemmas are proved about these. The class methods are tied to them through `ensures status == After(old(status), …)`.
- `Wrappers` (file `wrappers.dfy`) holds three small datatypes. `Option` stands for a Java reference that may be null. `Result` stands for a value or a thrown exception. `Outcome` stands for a void call that returns normally or throws.

Java `null` is `None` wherever the source lets it through: the Email address, the three `MemberCreateInfo` fields, the candidate password, and the hash the encoder returns. A thrown exception is a `Failure`/`Fail` value that names the error. `PasswordEncoder` is a datatype of two total functions, `encode` and `matches`, and the model universally quantifies over them. `encode` may return `Failure` (an encoder error, passed on unchanged) or `Success(None)` (a null hash). No law linking `encode` and `matches` is assumed.

In three places the model follows the code where a reader might expect otherwise:
- `Member.email` is a plain string. `create` only checks it for null. It does not wrap it in `Email` or check its format.
- The plaintext password is not null-checked. It is handed to `encode` as it is, and only the returned hash is null-checked.
- A null email, nickname or hash raises a `NullPointerException`, not a validation error. The model has one error per check (`EmailMissing`, `NicknameMissing`, `HashMissing`) in the order the source makes them.

## Model

| member | source | states |
|---|---|---|
| `EmailAddress.Create` | src/main/java/toby/spring/splearn/domain/Email.java:10-16 | A null address fails with `NullAddress`. A non-null address yields a `ValidEmail` exactly when it is well formed (an `@` splits it into a non-empty local part over `[A-Za-z0-9+_.-]` and a non-empty domain over `[A-Za-z0-9.-]`). Otherwise it fails with the message `Invalid email address: ` followed by the address. An accepted `Email` stores the address unchanged. |
| `EmailAddress.CreateAsWritten` | src/main/java/toby/spring/splearn/domain/Email.java:8-16 | The constructor with the pattern as literally compiled: a null address fails with `NullAddress`, and an accepted value would store its address unchanged. |
| `EmailAddress.CreateAsWrittenRejectsEverything` | src/main/java/toby/spring/splearn/domain/Email.java:8-15 | The constructor as written fails on every input. Every non-null address gets the `Invalid email address` error. |
| `EmailAddress.LiteralPatternMatchesNothing` | src/main/java/toby/spring/splearn/domain/Email.java:8 | No string fully matches `"^[A-Za-z0-9+_.-]+@[A-Za-z0-9.-]+$"` including its quote characters: the quote takes index 0, and `^` cannot hold at index 1. |
| `EmailAddress.IntendedMatchIffWellFormed` | src/main/java/toby/spring/splearn/domain/Email.java:8-13 | A string fully matches the intended pattern `^[A-Za-z0-9+_.-]+@[A-Za-z0-9.-]+$` if and only if it splits at an `@` into a non-empty local part over the local class and a non-empty domain over the domain class. |
| `EmailAddress.WellFormedHasSingleAt` | src/main/java/toby/spring/splearn/domain/Email.java:8 | A well-formed address holds exactly one `@`, and it is at the split point. |
| `EmailAddress.WellFormedCharacters` | src/main/java/toby/spring/splearn/domain/Email.java:8 | Every character of a well-formed address is a local-class character, the `@`, or a domain-class character. |
| `EmailAddress.RejectsUnlessSingleAt` | src/main/java/toby/spring/splearn/domain/Email.java:8-14 | An address with no `@` or with more than one, including the empty address, is rejected by the intended pattern and by the literal pattern. |
| `EmailAddress.RejectsForeignCharacter` | src/main/java/toby/spring/splearn/domain/Email.java:8-14 | An address holding a character that is in neither class and is not `@` is rejected by both patterns. |
| `EmailAddress.RejectsWhitespace` | src/main/java/toby/spring/splearn/domain/Email.java:8-14 | An address holding any whitespace character (space, tab, newline, vertical tab, form feed, carriage return) is rejected by both patterns. |
| `EmailAddress.RejectsForeignPrefix` | src/main/java/toby/spring/splearn/domain/Email.java:8-13 | Matching is whole-string: a leading character outside the local class makes the intended pattern reject the address, whatever follows it. |
| `EmailAddress.RejectsForeignSuffix` | src/main/java/toby/spring/splearn/domain/Email.java:8-13 | Matching is whole-string: a trailing character outside the domain class (a line terminator or a second `@`, for example) makes the intended pattern reject the address. |
| `EmailAddress.EmailEqualityIsAddressEquality` | src/main/java/toby/spring/splearn/domain/Email.java:7-10 | Two accepted addresses give equal `Email` values if and only if the addresses are equal (record value semantics). |
| `MemberLifecycle.Transition` | src/main/java/toby/spring/splearn/domain/Member.java:59-69 | A transition succeeds if and only if it starts from its source status (PENDING for an activation, ACTIVE for a deactivation), and it then moves the status exactly one step forward along PENDING, ACTIVE, DEACTIVATED. Every transition from DEACTIVATED fails. A failed activation reports `NotPending`, and a failed deactivation reports `NotActive`. |
| `MemberLifecycle.After` | src/main/java/toby/spring/splearn/domain/Member.java:59-69 | After an attempted command the status has stayed the same exactly when the guard rejected the command. Otherwise it has moved forward by one step. |
| `MemberLifecycle.Trace` | src/main/java/toby/spring/splearn/domain/Member.java:54-69 | The statuses a member passes through under a sequence of attempted commands. The trace starts at the initial status and ends at the final status `Run` gives. Each entry is `After` of the previous entry and the command at that position. |
| `MemberLifecycle.TraceIsMonotone` | src/main/java/toby/spring/splearn/domain/Member.java:54-69 | Along any command sequence, a later status never ranks below an earlier one: the status only moves forward. |
| `MemberLifecycle.DeactivatedIsTerminal` | src/main/java/toby/spring/splearn/domain/Member.java:65-68 | From DEACTIVATED, every status in the trace of any command sequence is DEACTIVATED. |
| `MemberLifecycle.RunFromActive` | src/main/java/toby/spring/splearn/domain/Member.java:59-69 | From ACTIVE a member never returns to PENDING. It ends DEACTIVATED if and only if some deactivation is attempted. |
| `MemberLifecycle.RunFromPending` | src/main/java/toby/spring/splearn/domain/Member.java:54-69 | From PENDING a member leaves PENDING if and only if some activation is attempted. It ends DEACTIVATED if and only if an activation is followed, later, by a deactivation. |
| `MemberLifecycle.Member.Blank` | src/main/java/toby/spring/splearn/domain/Member.java:43 | The private no-argument constructor yields a fresh object. |
| `MemberLifecycle.Member.Create` | src/main/java/toby/spring/splearn/domain/Member.java:45-57 | A missing email fails with `EmailMissing`. Otherwise a missing nickname fails with `NicknameMissing`. Otherwise an encoder error is passed on as `EncoderThrew`, and a null hash fails with `HashMissing`. No member is returned on any of these paths. Create succeeds if and only if all three checks pass. It then returns a fresh member whose email and nickname are copied unchanged, whose hash is exactly `encode(password)`, and whose status is `Pending`. |
| `MemberLifecycle.Member.Activate` | src/main/java/toby/spring/splearn/domain/Member.java:59-63 | From PENDING the call succeeds and the status becomes ACTIVE. From any other status it fails with `NotPending`, whose message is `Member is not pending`, and the status is unchanged. Email, nickname and hash are never touched. |
| `MemberLifecycle.Member.Deactivate` | src/main/java/toby/spring/splearn/domain/Member.java:65-69 | From ACTIVE the call succeeds and the status becomes DEACTIVATED. From PENDING or DEACTIVATED it fails with `NotActive`, whose message is `Member is not active`, and the status is unchanged. Email, nickname and hash are never touched. |
| `MemberLifecycle.Member.VerifyPassword` | src/main/java/toby/spring/splearn/domain/Member.java:71-76 | Returns exactly the encoder's `matches` verdict for the candidate against the stored hash. It is a function whose read frame is `passwordHash` alone. So it changes nothing, and the status cannot gate it. |
| `MemberLifecycle.SignUpAndVerify` | src/main/java/toby/spring/splearn/domain/Member.java:45-76 | Assume, as a hypothesis, an encoder that accepts every hash it produced. Then a member created from the signup input verifies its creation password while PENDING, after activation and after deactivation. So the status never gates verification. When creation fails, no verification takes place. |

## Findings

| source | as written | input that shows it | evidently intended | confidence | as-written member | corrected member |
|---|---|---|---|---|---|---|
| src/main/java/toby/spring/splearn/domain/Email.java:8 | The pattern string literal keeps the quote characters: it compiles `"^[A-Za-z0-9+_.-]+@[A-Za-z0-9.-]+$"`. Under `matches()` the first quote must take index 0, and `^` can then never hold. | `user@example.com`, or any other address, including `"user@example.com"` with its quotes | `^[A-Za-z0-9+_.-]+@[A-Za-z0-9.-]+$`, accepting exactly the well-formed addresses | not executed | `EmailAddress.CreateAsWritten` (shown by `EmailAddress.CreateAsWrittenRejectsEverything` and `EmailAddress.LiteralPatternMatchesNothing`) | `EmailAddress.Create` (shown by `EmailAddress.IntendedMatchIffWellFormed`) |

## Left out

- General `java.util.regex` semantics: the matcher covers only what the email pattern uses (literal characters, `^`, `$`, and a bracket class with `+`).
- The password hashing algorithm and every `PasswordEncoder` implementation: encoding is an abstract, deterministic function. A salted encoder returns a different hash on each call. So `encode(info.password)` in the contract of `Member.Create` stands for the result of the one call that `create` makes. An exception thrown by `matches` is not modelled: `matches` returns a boolean.
- MemberLifecycle.Member.VerifyPassword: does not promise false for a wrong password, and promises true for the creation password only under the hypothesis of `SignUpAndVerify`. Both depend on the encoder's own contract, which the source does not state and the model does not assume.
- A null `createInfo` or `passwordEncoder` argument (a `NullPointerException` in the source): Dafny's reference and datatype parameters cannot be null.
- Visibility: Java's `private` constructor has no counterpart without export sets, so `Member.Blank` can be called from other Dafny code. Its fields start at arbitrary values of their types, not at null.
- The Lombok-generated getters and `toString`: fields are read directly.
- The commented-out three-argument constructor: it is dead code.
- Persistence, the round trip of the four fields through storage, and concurrent access to one member: none of them is in the modelled files.
