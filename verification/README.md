# One-time codes: generation and validation

This project models the core of a one-time-code (OTP) service: `OTPManager`
and the `OTP` record it stores.

- **Generation.** `CreateTemplate` builds an array of character classes
  (UpperCase, LowerCase, Digit, Special). Its placement phase gives each
  position a randomly drawn class whose counter is still below its
  configured minimum. The phase stops right after the position at which
  every counter equals its minimum. The remaining positions are then padded
  from `DefaultChars`. `GenerateValue` renders each slot with `SetOne`,
  which takes one random character of that class's alphabet. `Generate`
  wraps the value in a new record.
- **Validation.** `IsValid` looks a record up by `UserNamedId`. `Validate`
  accepts it only if three things hold: the value matches exactly, creation
  time plus validity has not passed, and the status is Ready. `IsValid` then
  deletes by Id whatever record `Validate` left in its out-parameter.

Modelling choices:
- Every `Random.Next(0, n)` draw is a nondeterministic choice in `[0, n)`,
  or `0` when `n` is 0. In functions the draw is a parameter restricted to
  that range.
- The rejection loop at `OTPManager.cs:114` exits only by drawing a class
  below its minimum. It is modelled as exactly that choice.
- The document collection is a `map` from Id to record.
- Time is whole seconds since `DateTime.MinValue`, and `AddHours(h)` adds
  `3600 * h`.
- The exceptions on the generation path are values of `Outcome.Error`:
  - a negative `CodeLength` in `new T[CodeLength]`;
  - an empty `DefaultChars` when padding is needed;
  - `SetOne` on an unassigned slot, which the model proves never happens.

  The exception `IsValid` may raise when the user has no record is not
  modelled (see "Left out").

Files:
- `records.dfy`: the record.
- `outcome.dfy`: result and error types.
- `composer.dfy`: templates and rendering.
- `validator.dfy`: the decision, and the store transition of one `IsValid`
  call (`IsValidStep`).
- `manager.dfy`: the settings (the static fields) and the manager class.

Two behaviours of the code are worth stating:
- `IsValid` consumes a record only on acceptance. On rejection, `Validate`
  replaces its out-parameter with `new OTP()` (`OTPManager.cs:98`), so the
  delete at `:67` targets an Id that is stored nowhere and removes nothing.
  The rejected record stays.
- `Init` (`:30-40`) stores every value unchecked, with defaults 600, 6, 1,
  1, 1, 1 and 3 for the omitted arguments. A non-null `defaultChars` array
  is stored by reference. Minimums whose sum exceeds `CodeLength` give a
  full template with some class below its minimum
  (`OverfullLayoutMissesMinimum`). Minimums that are all 0 hang the
  rejection loop at `:114` (`PlacementSpins`); `PlacementHalts` excludes
  such configurations from generation.

## Model

| member | source | states |
|---|---|---|
| `Records.NewOtp` | Eviatar.Zilberman.OTP/Classes/OTP.cs:5-11 | A new record has Value "" and UserNamedId "", Status 1 (which is Ready), Complete = DateTime.MinValue, and the Id and CreationDate its base class gives it |
| `Composer.Alphabet` | Eviatar.Zilberman.OTP/Managers/OTPManager.cs:10-13 | Each class has a non-empty alphabet: the four constant strings |
| `Composer.ClassOfAlphabetChar` | Eviatar.Zilberman.OTP/Managers/OTPManager.cs:10-13 | The four alphabets are disjoint: each character of a class's alphabet is an upper-case letter, a lower-case letter, a digit, or a non-alphanumeric special, matching its class |
| `Manager.Settings.constructor` | Eviatar.Zilberman.OTP/Managers/OTPManager.cs:14-21 | The static defaults: 600 s validity, length 6, one of each class, 3 hours offset, padding from LowerCase |
| `Manager.Settings.Init` | Eviatar.Zilberman.OTP/Managers/OTPManager.cs:30-40 | Every argument is stored as given, with no check. A null `defaultChars` keeps the current padding classes |
| `Manager.OtpManager.Generate` | Eviatar.Zilberman.OTP/Managers/OTPManager.cs:42-51 | Fails exactly when value generation fails. Otherwise the record has the user's id, a value laid out and rendered as GenerateValue promises, CreationDate = now + AddHours hours, and Status and Complete at their defaults |
| `Manager.OtpManager.GetByUserNamedId` | Eviatar.Zilberman.OTP/Managers/OTPManager.cs:71 | Finds a record iff the user has one. What it finds is stored under its own Id and belongs to that user |
| `Manager.OtpManager.IsValid` | Eviatar.Zilberman.OTP/Managers/OTPManager.cs:53-69 | The store changes as `IsValidStep` allows: accept iff the found record passes Validate, delete it only then, leave the store as it was on a rejected record. The store stays keyed by Id |
| `Validator.Validate` | Eviatar.Zilberman.OTP/Managers/OTPManager.cs:84-100 | Accepts iff a record was found whose value is equal, whose CreationDate + validity >= now, and whose status is Ready. On acceptance the out record is the found one. On rejection of a found record it is the fresh `new OTP()` |
| `Validator.StepDecidesOnStoredRecord` | Eviatar.Zilberman.OTP/Managers/OTPManager.cs:53-100 | With one record per user, a call accepts exactly when that record matches, is live and is Ready. The record is deleted exactly when accepted, so an expired record or a wrong code is rejected and stays stored |
| `Validator.StepRejectsUnknownUser` | Eviatar.Zilberman.OTP/Managers/OTPManager.cs:86 | A user without a record is rejected |
| `Validator.AcceptedCodeIsConsumed` | Eviatar.Zilberman.OTP/Managers/OTPManager.cs:53-69 | After an accepted call, with one record per user, no record of that user remains and uniqueness is kept. The next call for the user rejects any value |
| `Validator.IssuedCodeAcceptedOnce` | Eviatar.Zilberman.OTP/Managers/OTPManager.cs:42-100 | A freshly generated record, stored for a user with no other record and checked with its own value while live, is accepted and removed, which restores the store. A second check then rejects |
| `Composer.AllFull` | Eviatar.Zilberman.OTP/Managers/OTPManager.cs:156-159 | True iff every slot of the template is assigned |
| `Composer.PlacementCanDraw` | Eviatar.Zilberman.OTP/Managers/OTPManager.cs:114-141 | In a configuration where placement halts, every position has a class still below its minimum, so the rejection loop can exit |
| `Composer.PlacementSpins` | Eviatar.Zilberman.OTP/Managers/OTPManager.cs:112-143 | Outside `PlacementHalts` the placement phase never ends. Counters within their caps leave fewer than CodeLength slots assigned, and once a slot is assigned the break condition fails. No class can be drawn exactly when every counter is at its cap, so the rejection loop spins for ever |
| `Composer.PlaceNext` | Eviatar.Zilberman.OTP/Managers/OTPManager.cs:114-141 | Placing a class below its minimum assigns exactly the next slot and increments exactly that class's counter. Every counter stays within its minimum and the counters keep counting the assigned slots |
| `Composer.PlacementStopsAt` | Eviatar.Zilberman.OTP/Managers/OTPManager.cs:142 | The phase ends right after the position where all four counters equal their minimums. That position is the sum of the minimums when they are non-negative and fit, and otherwise the phase ends at CodeLength |
| `Composer.PlacementFromCounters` | Eviatar.Zilberman.OTP/Managers/OTPManager.cs:112-143 | When placement stops, the assigned prefix holds no more of a class than its minimum allows, and exactly the minimums when they fit |
| `Composer.PlaceMinimums` | Eviatar.Zilberman.OTP/Managers/OTPManager.cs:112-143 | The placement loop assigns exactly the first PlacedLength slots within the minimums and leaves the rest unassigned. It returns the index the loop stops at, which is one before PlacedLength after a break |
| `Composer.FillFromDefaults` | Eviatar.Zilberman.OTP/Managers/OTPManager.cs:161-167 | Returns a class of DefaultChars. Throws (IndexOutOfRange) iff DefaultChars is empty |
| `Composer.EveryDefaultReachable` | Eviatar.Zilberman.OTP/Managers/OTPManager.cs:161-167 | Every class of DefaultChars is returned for some draw |
| `Composer.LayoutFromPlacement` | Eviatar.Zilberman.OTP/Managers/OTPManager.cs:144-153 | A placed prefix followed by padding from DefaultChars satisfies the template layout |
| `Composer.CreateTemplate` | Eviatar.Zilberman.OTP/Managers/OTPManager.cs:102-154 | Throws iff CodeLength < 0, or padding is needed and DefaultChars is empty. Otherwise it returns a fresh array of CodeLength assigned slots: the first PlacedLength within the minimums (exactly them when they fit), every later one a class of DefaultChars |
| `Composer.LayoutMeetsMinimums` | Eviatar.Zilberman.OTP/Managers/OTPManager.cs:102-154 | When the minimums are non-negative and fit in CodeLength, each class occurs in the template at least its minimum number of times |
| `Composer.OverfullLayoutMissesMinimum` | Eviatar.Zilberman.OTP/Managers/OTPManager.cs:112-143 | Minimums whose sum exceeds CodeLength, negative ones included, raise no error. The template is full, but some class stays below its minimum |
| `Composer.CountsCoverFullTemplate` | Eviatar.Zilberman.OTP/Managers/OTPManager.cs:144-159 | In a full template, the four class counts add up to its length |
| `Composer.SetOne` | Eviatar.Zilberman.OTP/Managers/OTPManager.cs:169-184 | Returns a character of the slot's alphabet (so of the slot's class) for each class. Throws iff the slot is unassigned |
| `Composer.SetOneReachesEveryChar` | Eviatar.Zilberman.OTP/Managers/OTPManager.cs:169-184 | Every character of a class's alphabet is produced by some draw |
| `Composer.GenerateValue` | Eviatar.Zilberman.OTP/Managers/OTPManager.cs:73-82 | Fails exactly when CreateTemplate or the array allocation throws; SetOne never throws on the template. Otherwise the value has CodeLength characters, the i-th from the alphabet of the i-th slot of a template with the CreateTemplate layout |
| `Composer.RenderedCounts` | Eviatar.Zilberman.OTP/Managers/OTPManager.cs:73-82 | A rendered code has exactly as many characters of each class as its template has slots of that class |
| `Composer.CodeMeetsMinimums` | Eviatar.Zilberman.OTP/Managers/OTPManager.cs:73-154 | A generated code has CodeLength characters. When the minimums are non-negative and fit, it has at least the configured number of characters of each class |
| `Composer.DefaultCodeComposition` | Eviatar.Zilberman.OTP/Managers/OTPManager.cs:14-21 | With the default settings a code has six characters: one upper-case letter, one digit, one special character and three lower-case letters |

## Left out

- MongoDB plumbing is not modelled: the base manager, `GetCollectionName`,
  the search inside `FindOneByProperty`, `Delete` and record insertion. The
  collection is a map from Id to record, and a lookup returns any record of
  the user.
- The `AMongoDBItem` base class is not part of this model. `Id` and the
  initial `CreationDate` of a new record are parameters. The `new OTP()` built on rejection is
  assumed to get an Id that is stored nowhere; this is the `freshId`
  precondition of `IsValid`.
- Manager.OtpManager.IsValid: when the user has no record, the contract
  promises only the rejection and leaves the store effect open. That path
  depends on what the unseen `FindOneByProperty` leaves in its
  out-parameter (`:71`, `:86`). `otp!.Id` at `:67` only suppresses the
  null warning, so if the lookup leaves null, the source throws
  NullReferenceException instead of returning false. The model's `false`
  assumes a non-null out-value, and its body leaves the store unchanged.
- Composer.CreateTemplate: requires `PlacementHalts`, and so do
  GenerateValue and Generate. The excluded configurations are those on
  which the source's rejection loop never ends: every minimum 0, or a
  negative minimum with too few positive ones to fill the code. A hang is
  not a value.
- Uniqueness of one record per user is not enforced by the source. The
  lemmas that need it take it as a hypothesis.
- `System.Random` is not modelled as a distribution (uniformity, bias,
  expected retries). Only which values a draw can take is modelled.
- `DateTime` is not modelled. That covers the mix of `UtcNow` (`:48`) and
  local `Now` (`:90`), calendar arithmetic, and the range exceptions of
  `AddHours`/`AddSeconds`.
- 32-bit `int` bounds of the settings are not modelled; values are
  unbounded integers.
- The `Types` and `OTPStatus` enums are not part of this model. There are
  four classes, and `OTPStatus.Ready` is taken to be 1, the initial
  `Status`.
- The commented-out status and `Complete` updates in `IsValid` are not
  modelled. `Complete` is never read or written.
- The read-then-delete race between concurrent `IsValid` calls is not
  modelled.
- The unused `dbName` parameter of `Init` is not modelled.
- Manager.Settings.Init: stores `defaultChars` as a value. The source keeps
  a reference to the caller's array, so later writes by the caller would
  change the padding classes; that aliasing is not captured.
- Init's optional-argument defaults are not modelled: every argument is
  passed explicitly.
