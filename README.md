# trainer: a Dafny model of the on-chain program's core

This project models three small pieces of the `trainer` Solana program (an
Anchor program) and proves properties of them:

- **Strategies** (`programs/trainer/src/lib.rs`). A strategy account holds a
  zero-padded 280-byte name and a fixed array of 33607 exercise answers used
  as a circular buffer with `head` and `tail` counters. `append` writes the
  answer into the head's slot, pushes the tail forward when the head would
  wrap onto it, and bumps the head. `create_strategy` stores the name and
  `check_exercise_answer` appends a zero-padded message sent from a user
  account. `create_user` fills in a user account.
- **Seed slicing** (`programs/trainer/src/utils.rs`). `text_seed` returns at
  most 32 bytes of a string, either its first chunk or its second
  ("leftover") chunk, so that a long content id can be used as seeds of a
  program-derived address.
- **Account sizes** (`programs/trainer/src/state.rs`). `Trader::space` and
  `Exercise::space` are the closed-form byte counts allocated for trader and
  exercise accounts.

Files and modules:

- `bytes.dfy`, module `Bytes`: `u8`, `u64`, `i64`, 32-byte public keys, and
  little-endian encoding with its inverse.
- `utils.dfy`, module `Utils`: `TextSeed` and its case lemmas.
- `state.dfy`, module `State`: the `Trader`, `Validation` and `Exercise`
  records, their serialized layout (each field in declaration order, integers
  little-endian, strings and vectors prefixed by a 4-byte length, after an
  8-byte discriminator), and the two space formulas. The serialized layout is
  the reference the space formulas are proved against. It is how the
  framework writes an `#[account]` struct; the serializer itself is not part
  of this model.
- `trainer.dfy`, module `Trainer`: the user account and `CreateUser`, the
  zero-padding of text fields, the circular buffer as a value (`RingState`,
  `Step`, `Live`) with its lemmas, the `Strategy` class (the zero-copy
  account: two counters, a `name` array and an `exerciseAnswers` array), and
  the `create_strategy` and `check_exercise_answer` instructions as methods.

The buffer size is a parameter `n` throughout; the program instantiates it
at `AnswerSlots` = 33607. The live answers of a strategy are the slots of the
counters `tail .. head - 1`. The main results:

- `tail <= head <= tail + n - 1` is kept by every append (`StepKeepsBounded`).
- The tail moves exactly when `n - 1` answers were already live
  (`TailAdvancesIffFull`).
- The live answers behave as a queue that keeps the most recent `n - 1`
  answers and drops the oldest one when full (`StepLive`, `RecentWindow`).
- Fewer than `n` appends to a fresh strategy leave the head at their count,
  the tail at 0, the answers in slots `0 ..` in order and the rest zero
  (`FreshAppends`, `SentAnswersLayout`).

A panic inside an instruction aborts the transaction and leaves every
account as it was. The model returns `Aborted` and changes nothing in those
cases: a string longer than the 280-byte field makes the slice copy panic.

## Model

| member | source | states |
|---|---|---|
| `Utils.TextSeed` | programs/trainer/src/utils.rs:3-18 | the seed is at most 32 bytes, is non-empty for a non-empty text, and is a prefix of the text when `leftover` is false |
| `Utils.TextSeedIsSlice` | programs/trainer/src/utils.rs:4-17 | the seed is always one contiguous run of the text's bytes |
| `Utils.ShortTextIsWhole` | programs/trainer/src/utils.rs:15-16 | a text of at most 32 bytes is its own seed for both values of `leftover` |
| `Utils.FirstChunk` | programs/trainer/src/utils.rs:12-13 | a text longer than 32 bytes without `leftover` gives its first 32 bytes |
| `Utils.SecondChunkOfLongText` | programs/trainer/src/utils.rs:7-8 | a text longer than 64 bytes with `leftover` gives bytes 32 to 64 |
| `Utils.SecondChunkOfMediumText` | programs/trainer/src/utils.rs:9-10 | a text of 33 to 64 bytes with `leftover` gives bytes 32 to the end |
| `Utils.ChunksRejoin` | programs/trainer/src/utils.rs:5-13 | for a text of 33 to 64 bytes the first chunk followed by the second chunk is the text |
| `Utils.ChunksCoverPrefix` | programs/trainer/src/utils.rs:5-13 | for any text longer than 32 bytes the two chunks together are its first 64 bytes, or the whole text when shorter |
| `Utils.ClientSeedsAgree` | tests/client.ts:72-77 | for an ASCII cid, the client's `cid.slice(0, 32)` always equals the first chunk and `cid.slice(32, 64)` equals the second chunk for a cid longer than 32 bytes; for a shorter cid the client's second seed is empty while `TextSeed(cid, true)` is the whole cid |
| `State.SerializeTrader` | programs/trainer/src/state.rs:3-9 | the serialized trader is the 32-byte user key, a 4-byte length that reads back as the name's length, the name, 8 bytes that read back as the performance, and the bump byte |
| `State.SerializeExercise` | programs/trainer/src/state.rs:28-38 | the serialized exercise has the length of all its fields in declaration order; it starts with the `full` byte, then a 4-byte length that reads back as the cid's length, the cid and the authority key, and ends with the bump byte |
| `State.TraderSpace` | programs/trainer/src/state.rs:13-18 | `Trader::space(name)` is larger than the name's length |
| `State.ExerciseSpace` | programs/trainer/src/state.rs:42-51 | `Exercise::space(cid, cap)` is larger than twice the cid's length plus 72 bytes per validation slot |
| `State.TraderSpaceIsSerializedSize` | programs/trainer/src/state.rs:3-19 | `Trader::space(name)` is exactly the size of the serialized trader account (discriminator, key, length-prefixed name, `u64`, `u8`) |
| `State.TraderSpaceClosedForm` | programs/trainer/src/state.rs:13-18 | `Trader::space(name) == 53 + len(name)` |
| `State.TraderSpaceIncreasing` | programs/trainer/src/state.rs:17 | a longer name needs strictly more space, and no trader account is below 53 bytes |
| `State.ValidationSizeIsSerializedSize` | programs/trainer/src/state.rs:21-26 | a serialized validation takes `size_of::<Validation>()` = 72 bytes (an `i64` and two keys) |
| `State.ExerciseSpaceClosedForm` | programs/trainer/src/state.rs:42-51 | `Exercise::space(cid, cap) == 63 + 2 * len(cid) + 72 * cap`, the cid length counted twice because the solution cid is sized by it |
| `State.ExerciseSpaceMonotone` | programs/trainer/src/state.rs:46-48 | the space grows with the cid length and with the capacity, strictly when either grows |
| `State.ExerciseSpaceBound` | programs/trainer/src/state.rs:35-48 | since the capacity is a `u8`, the space is at most `63 + 2 * len(cid) + 255 * 72` |
| `State.ExerciseSerializedSize` | programs/trainer/src/state.rs:28-38 | a serialized exercise account takes `63 + len(cid) + len(solution_cid) + 72 * len(validations)` bytes |
| `State.ExerciseSpaceFits` | programs/trainer/src/state.rs:28-51 | the serialized account fits the allocated space if and only if the solution cid and the validations take no more room than a cid-long solution cid and `cap` validations; with both within those bounds it fills the space exactly when both are at their bounds |
| `State.ValidationsBytes` | programs/trainer/src/state.rs:36 | the serialized vector body holds validation `i` at bytes `72 * i .. 72 * (i + 1)` |
| `Trainer.SerializeUser` | programs/trainer/src/lib.rs:74-79 | the serialized user is the length-prefixed name, then the 32-byte authority key, then the bump byte |
| `Trainer.CreateUser` | programs/trainer/src/lib.rs:9-14 | the user account records the given name, the signing authority and the bump, and creation succeeds if and only if the name is at most 275 bytes, so that the serialized account fits the 320 bytes allocated at lib.rs:46 |
| `Trainer.ZeroPadded` | programs/trainer/src/lib.rs:16-18 | for an input of at most 280 bytes, the 280-byte field starts with the input and is zero after it |
| `Trainer.ZeroPad` | programs/trainer/src/lib.rs:26-28 | a fresh zeroed 280-byte buffer with the input copied to its front holds `ZeroPadded(input)` |
| `Trainer.IndexOf` | programs/trainer/src/lib.rs:97-99 | `index_of(counter)` is a valid slot index below `n` (so the conversion to `usize` never fails) |
| `Trainer.IndexOfDistinct` | programs/trainer/src/lib.rs:97-99 | counters less than `n` apart refer to different slots |
| `Trainer.IndexOfPeriodic` | programs/trainer/src/lib.rs:97-99 | counters exactly `n` apart refer to the same slot |
| `Trainer.Step` | programs/trainer/src/lib.rs:90-96 | `append` on values keeps the number of slots and moves the tail forward by at most one |
| `Trainer.StrategyBodySize` | programs/trainer/src/lib.rs:82-87 | the body of a strategy account with `n` slots is at least 296 bytes (the two counters and the name) and at least 312 bytes per slot; its exact size at 33607 slots is `Trainer.StrategyAccountSize` |
| `Trainer.StrategyAccountSize` | programs/trainer/src/lib.rs:86 | with 33607 slots the account body is 10,485,680 bytes; with the discriminator it fits the runtime's 10 MiB account limit, and one more slot would not |
| `Trainer.FreshRing` | programs/trainer/src/lib.rs:81-87 | an all-zero strategy satisfies the buffer invariant and has no live answers |
| `Trainer.TailAdvancesIffFull` | programs/trainer/src/lib.rs:92-94 | under the invariant, the tail moves by one exactly when `head - tail == n - 1`, and otherwise stays |
| `Trainer.StepKeepsBounded` | programs/trainer/src/lib.rs:89-96 | `append` keeps `tail <= head <= tail + n - 1` |
| `Trainer.StepLive` | programs/trainer/src/lib.rs:89-96 | after `append` the live answers are the old ones plus the new answer, minus the oldest when `n - 1` were live |
| `Trainer.AppendsKeepBounded` | programs/trainer/src/lib.rs:89-96 | any sequence of appends keeps the buffer invariant |
| `Trainer.RecentWindow` | programs/trainer/src/lib.rs:89-96 | after any appends to a fresh strategy, the live answers are the most recent `n - 1` of them, oldest first |
| `Trainer.FreshAppends` | programs/trainer/src/lib.rs:89-96 | fewer than `n` appends to a fresh strategy: head is their count, tail is 0, slot `i` holds the `i`-th answer, later slots stay all-zero |
| `Trainer.SentAnswersLayout` | programs/trainer/src/lib.rs:23-35 | fewer than 33607 messages from one user: head is their count, tail is 0, slot `i` is from the user and its data starts with message `i`, later slots stay all-zero |
| `Trainer.Strategy.constructor` | programs/trainer/src/lib.rs:81-87 | a newly allocated strategy is all zero: zero counters, zero name, all slots empty |
| `Trainer.Strategy.Append` | programs/trainer/src/lib.rs:90-96 | writes the answer at slot `index_of(old head)`, leaves every other slot and the name unchanged, adds 1 to the head, adds 1 to the tail exactly when `index_of(head + 1) == index_of(tail)`, and keeps the invariant `Valid()` |
| `Trainer.CreateStrategy` | programs/trainer/src/lib.rs:15-22 | succeeds if and only if the name is at most 280 bytes, and then stores `ZeroPadded(name)`; otherwise the name is unchanged |
| `Trainer.CheckExerciseAnswer` | programs/trainer/src/lib.rs:23-35 | succeeds if and only if the message is at most 280 bytes, and then appends an answer from the user with the zero-padded message; otherwise the strategy is unchanged; the invariant is kept either way |

## Left out

- Address derivation (`findProgramAddress`, the program id, bump search): a hash and curve search outside the program. Only the seed bytes (`TextSeed`) are modelled.
- The validation, outcome, check, close and parameter instructions, the scoring curve and the batch check: none of their code is in the modelled files, so they are not part of this model.
- Account plumbing: the `#[derive(Accounts)]` constraints, `load_init` / `load_mut` (and the error `load_init` gives on an account that is already initialised), rent, payer and account allocation. The `Strategy` constructor stands for the all-zero account the runtime allocates and `CreateUser` for writing into a new account.
- Signer and `has_one = authority` checks (lib.rs:62-69): authorization is not modelled; `CheckExerciseAnswer` takes the user account's key as a parameter.
- The account discriminator is an 8-byte hash prefix; the model counts its 8 bytes and takes its value as a parameter.
- Trainer.Strategy.Append: does not model the `u64` overflow of `head + 1`; it requires the head to be below `2^64 - 1`. It also requires `Valid()`, which every strategy the program produces satisfies (the constructor establishes it and `Append` keeps it); then `tail <= head`, so `tail + 1` cannot overflow either.
- Trainer.CheckExerciseAnswer: inherits the same requirements.
- The client's seeds are compared with `TextSeed` only for ASCII cids: JavaScript's `String.slice` counts UTF-16 code units, not UTF-8 bytes, so for a cid with non-ASCII characters the client's chunks differ from `text_seed`'s. Every cid the tests use is ASCII.
- The space formulas are computed on unbounded integers; a `usize` overflow of the formulas would need inputs far beyond any account size and is not modelled.
- The `ErrorCode { Unknown }` enum in lib.rs and the error and event declarations in `error.rs` and `events.rs`: declarations without behaviour.
- Text is modelled as its UTF-8 bytes; UTF-8 validity is not modelled.
- All TypeScript (tests, client, CLI, deploy scripts) is left out, apart from the client's seed slicing at tests/client.ts:72-77, which `Utils.ClientSeedsAgree` compares with `TextSeed`.
