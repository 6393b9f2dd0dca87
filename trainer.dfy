/** The `trainer` program: user accounts, and strategies that keep the most
    recent exercise answers in a fixed-size circular buffer. */
module Trainer {
  import opened Bytes
  import State

  // ---------------------------------------------------------------------------
  // Fixed-width text fields
  // ---------------------------------------------------------------------------

  /** Length of the fixed `name` and `data` byte fields. */
  const FieldLen: nat := 280
  type Field = f: seq<u8> | |f| == FieldLen witness seq(280, _ => 0)
  const ZeroField: Field := seq(FieldLen, _ => 0)

  /** A caller's string copied to the front of an all-zero 280-byte field. */
  function ZeroPadded(src: seq<u8>): (f: Field)
    requires |src| <= FieldLen
    ensures f[..|src|] == src
    ensures forall i :: |src| <= i < FieldLen ==> f[i] == 0
  {
    src + seq(FieldLen - |src|, _ => 0)
  }

  /** Allocates an all-zero 280-byte buffer and copies the input over its
      first bytes, as `create_strategy` and `check_exercise_answer` do. */
  method ZeroPad(src: seq<u8>) returns (buf: array<u8>)
    requires |src| <= FieldLen
    ensures fresh(buf) && buf.Length == FieldLen
    ensures buf[..] == ZeroPadded(src)
  {
    buf := new u8[FieldLen](_ => 0);
    forall i | 0 <= i < |src| {
      buf[i] := src[i];
    }
  }

  datatype Status = Success | Aborted

  // ---------------------------------------------------------------------------
  // Users
  // ---------------------------------------------------------------------------

  datatype User = User(name: seq<u8>, authority: Pubkey, bump: u8)

  datatype Error = AccountDidNotSerialize
  datatype Result<T> = Ok(value: T) | Err(error: Error)

  /** The space allocated for a user account. */
  const UserSpace: nat := 320

  /** The serialized user account: length-prefixed name, authority key, bump. */
  function SerializeUser(u: User): (r: seq<u8>)
    requires |u.name| < U32Limit
    ensures |r| == 4 + |u.name| + KeyLen + 1
    ensures FromLittleEndian(r[..4]) == |u.name|
    ensures r[4..4 + |u.name|] == u.name
    ensures r[4 + |u.name|..4 + |u.name| + KeyLen] == u.authority
    ensures r[|r| - 1] == u.bump
  {
    var name := State.StringBytes(u.name);
    SliceOfPrefix(name, u.authority + [u.bump], 0, 4);
    name + (u.authority + [u.bump])
  }

  /** Bytes of a user account other than its name: discriminator, name
      length, authority key, bump. */
  const UserOverhead: nat := State.DiscriminatorLen + 4 + KeyLen + 1

  /** `create_user`: records the name, the signing authority and the bump in
      the new user account. The account is written back in its serialized
      form, which fails when it does not fit in the 320 allocated bytes. */
  function CreateUser(authority: Pubkey, name: seq<u8>, bump: u8): (r: Result<User>)
    ensures r.Ok? <==> |name| <= UserSpace - UserOverhead
    ensures r.Ok? ==> r.value.name == name && r.value.authority == authority && r.value.bump == bump
    ensures r.Ok? ==> State.DiscriminatorLen + |SerializeUser(r.value)| <= UserSpace
  {
    var u := User(name, authority, bump);
    if |name| < U32Limit && State.DiscriminatorLen + |SerializeUser(u)| <= UserSpace then Ok(u)
    else Err(AccountDidNotSerialize)
  }

  // ---------------------------------------------------------------------------
  // The circular buffer of exercise answers, as a value
  // ---------------------------------------------------------------------------

  /** Number of answer slots in a strategy account. */
  const AnswerSlots: nat := 33607

  datatype ExerciseAnswer = ExerciseAnswer(from: Pubkey, data: Field)

  /** A slot of a freshly allocated (all-zero) account. */
  const EmptyAnswer: ExerciseAnswer := ExerciseAnswer(ZeroKey, ZeroField)

  /** `index_of`: the slot a counter refers to in a buffer of `n` slots. */
  function IndexOf(counter: nat, n: nat): (i: nat)
    requires n > 0
    ensures i < n
    ensures i <= counter
  {
    counter % n
  }

  lemma MulDistributes(a: int, b: int, n: int)
    ensures a * n - b * n == (a - b) * n
  {
  }

  lemma MulAtLeast(k: int, n: nat)
    requires k >= 1
    ensures k * n >= n
  {
    assert k * n == (k - 1) * n + n;
  }

  /** Division with remainder has one answer. */
  lemma {:induction false} DivModUnique(x: nat, q: int, r: int, n: nat)
    requires n > 0 && 0 <= r < n && x == q * n + r
    ensures x % n == r && x / n == q
  {
    var q', r' := x / n, x % n;
    MulDistributes(q, q', n);
    if q > q' {
      MulAtLeast(q - q', n);
    } else if q < q' {
      MulAtLeast(q' - q, n);
      MulDistributes(q', q, n);
    }
  }

  /** Counters less than `n` apart refer to different slots. */
  lemma {:induction false} IndexOfDistinct(a: nat, b: nat, n: nat)
    requires n > 0 && a < b < a + n
    ensures IndexOf(a, n) != IndexOf(b, n)
  {
    var q, r := a / n, a % n;
    var d := b - a;
    if r + d < n {
      DivModUnique(b, q, r + d, n);
    } else {
      DivModUnique(b, q + 1, r + d - n, n);
    }
  }

  /** Counters `n` apart refer to the same slot. */
  lemma {:induction false} IndexOfPeriodic(c: nat, n: nat)
    requires n > 0
    ensures IndexOf(c + n, n) == IndexOf(c, n)
  {
    DivModUnique(c + n, c / n + 1, c % n, n);
  }

  /** The counters and slots of a strategy. */
  datatype RingState = RingState(head: nat, tail: nat, slots: seq<ExerciseAnswer>)

  /** The invariant the program keeps: `tail <= head` and at most `n - 1`
      live answers, `n` being the number of slots. */
  predicate Bounded(r: RingState)
  {
    |r.slots| > 0 && r.tail <= r.head <= r.tail + |r.slots| - 1
  }

  /** `Strategy::append` on values: store at the head's slot, push the tail
      forward when the head would catch up with it, bump the head. */
  function Step(r: RingState, msg: ExerciseAnswer): (r': RingState)
    requires |r.slots| > 0
    ensures |r'.slots| == |r.slots|
    ensures r.tail <= r'.tail <= r.tail + 1
  {
    var n := |r.slots|;
    RingState(
      r.head + 1,
      if IndexOf(r.head + 1, n) == IndexOf(r.tail, n) then r.tail + 1 else r.tail,
      r.slots[IndexOf(r.head, n) := msg])
  }

  /** The live answers, oldest first: the slots of counters `tail .. head - 1`. */
  function Live(r: RingState): (live: seq<ExerciseAnswer>)
    requires Bounded(r)
    ensures |live| == r.head - r.tail
    ensures |live| < |r.slots|
  {
    seq(r.head - r.tail, i requires 0 <= i < r.head - r.tail => r.slots[IndexOf(r.tail + i, |r.slots|)])
  }

  /** The tail moves exactly when the buffer already held `n - 1` answers. */
  lemma {:induction false} TailAdvancesIffFull(r: RingState, msg: ExerciseAnswer)
    requires Bounded(r)
    ensures Step(r, msg).tail == if r.head - r.tail == |r.slots| - 1 then r.tail + 1 else r.tail
  {
    var n := |r.slots|;
    if r.head - r.tail == n - 1 {
      IndexOfPeriodic(r.tail, n);
    } else {
      IndexOfDistinct(r.tail, r.head + 1, n);
    }
  }

  /** Appending keeps the invariant. */
  lemma {:induction false} StepKeepsBounded(r: RingState, msg: ExerciseAnswer)
    requires Bounded(r)
    ensures Bounded(Step(r, msg))
  {
    TailAdvancesIffFull(r, msg);
  }

  /** Appending adds the answer at the newest end and, when `n - 1` answers
      were already live, drops the oldest one. */
  lemma {:induction false} StepLive(r: RingState, msg: ExerciseAnswer)
    requires Bounded(r)
    ensures Bounded(Step(r, msg))
    ensures Live(Step(r, msg))
      == if |Live(r)| < |r.slots| - 1 then Live(r) + [msg] else (Live(r) + [msg])[1..]
  {
    var n := |r.slots|;
    var r' := Step(r, msg);
    TailAdvancesIffFull(r, msg);
    var grown := Live(r) + [msg];
    var expected := if |Live(r)| < n - 1 then grown else grown[1..];
    var shift := r'.tail - r.tail;
    assert expected == grown[shift..];
    forall i | 0 <= i < |expected|
      ensures Live(r')[i] == expected[i]
    {
      var c := r'.tail + i;
      if c < r.head {
        IndexOfDistinct(c, r.head, n);
      }
    }
  }

  /** The state after appending each of `msgs` in turn. */
  function Appends(r: RingState, msgs: seq<ExerciseAnswer>): (r': RingState)
    requires |r.slots| > 0
    ensures |r'.slots| == |r.slots|
    ensures r'.head == r.head + |msgs|
  {
    if msgs == [] then r else Step(Appends(r, msgs[..|msgs| - 1]), msgs[|msgs| - 1])
  }

  /** A freshly allocated strategy: zero counters and all-zero slots. */
  function FreshRing(n: nat): (r: RingState)
    requires n > 0
    ensures Bounded(r) && Live(r) == []
  {
    RingState(0, 0, seq(n, _ => EmptyAnswer))
  }

  lemma {:induction false} AppendsKeepBounded(r: RingState, msgs: seq<ExerciseAnswer>)
    requires Bounded(r)
    ensures Bounded(Appends(r, msgs))
  {
    if msgs != [] {
      AppendsKeepBounded(r, msgs[..|msgs| - 1]);
      StepKeepsBounded(Appends(r, msgs[..|msgs| - 1]), msgs[|msgs| - 1]);
    }
  }

  /** Fewer than `n` appends to a fresh strategy: the head counts them, the
      tail stays at zero, slot `i` holds the `i`-th answer and every later
      slot is still all-zero. */
  lemma {:induction false} FreshAppends(n: nat, msgs: seq<ExerciseAnswer>)
    requires 0 < n && |msgs| < n
    ensures Appends(FreshRing(n), msgs).head == |msgs|
    ensures Appends(FreshRing(n), msgs).tail == 0
    ensures forall i :: 0 <= i < |msgs| ==> Appends(FreshRing(n), msgs).slots[i] == msgs[i]
    ensures forall i :: |msgs| <= i < n ==> Appends(FreshRing(n), msgs).slots[i] == EmptyAnswer
  {
    if msgs != [] {
      var prefix := msgs[..|msgs| - 1];
      FreshAppends(n, prefix);
      var p := Appends(FreshRing(n), prefix);
      DivModUnique(|prefix|, 0, |prefix|, n);
      DivModUnique(|msgs|, 0, |msgs|, n);
      DivModUnique(0, 0, 0, n);
      var r := Step(p, msgs[|msgs| - 1]);
      assert r.tail == 0;
      assert r.slots == p.slots[|prefix| := msgs[|msgs| - 1]];
    }
  }

  /** The last `w` elements of `s`, or all of `s` when it is shorter. */
  function LastAtMost(s: seq<ExerciseAnswer>, w: nat): (r: seq<ExerciseAnswer>)
    ensures |r| == if |s| < w then |s| else w
  {
    s[|s| - (if |s| < w then |s| else w)..]
  }

  /** The window of `w` elements moves when the last element of `s` is added
      to the rest of `s`. */
  lemma {:induction false} LastAtMostSnoc(s: seq<ExerciseAnswer>, w: nat)
    requires s != []
    ensures var before := LastAtMost(s[..|s| - 1], w);
      LastAtMost(s, w)
      == if |before| < w then before + [s[|s| - 1]] else (before + [s[|s| - 1]])[1..]
  {
    var prefix, m := s[..|s| - 1], s[|s| - 1];
    var k := |prefix| - (if |prefix| < w then |prefix| else w);
    assert prefix[k..] + [m] == s[k..];
    if |prefix| >= w {
      assert s[k..][1..] == s[k + 1..];
    }
  }

  /** After any number of appends to a fresh strategy the live answers are
      the most recent `n - 1` of them (all of them while there are fewer). */
  lemma {:induction false} RecentWindow(n: nat, msgs: seq<ExerciseAnswer>)
    requires n > 0
    ensures Bounded(Appends(FreshRing(n), msgs))
    ensures Live(Appends(FreshRing(n), msgs)) == LastAtMost(msgs, n - 1)
  {
    if msgs != [] {
      var prefix, m := msgs[..|msgs| - 1], msgs[|msgs| - 1];
      RecentWindow(n, prefix);
      var p := Appends(FreshRing(n), prefix);
      assert |p.slots| == n;
      StepLive(p, m);
      LastAtMostSnoc(msgs, n - 1);
      assert Live(Step(p, m)) == LastAtMost(msgs, n - 1);
      assert Appends(FreshRing(n), msgs) == Step(p, m);
    } else {
      assert LastAtMost(msgs, n - 1) == [];
    }
  }

  /** The answers `check_exercise_answer` appends for the messages `texts`
      sent from one user account. */
  function SentAnswers(user: Pubkey, texts: seq<seq<u8>>): (answers: seq<ExerciseAnswer>)
    requires forall i :: 0 <= i < |texts| ==> |texts[i]| <= FieldLen
    ensures |answers| == |texts|
  {
    seq(|texts|, i requires 0 <= i < |texts| => ExerciseAnswer(user, ZeroPadded(texts[i])))
  }

  /** A fresh strategy of `AnswerSlots` slots after fewer than `AnswerSlots`
      messages from one user: the head counts the messages, the tail is zero,
      slot `i` is from the user and its data starts with the `i`-th message,
      and every later slot is still all-zero. */
  lemma {:induction false} SentAnswersLayout(user: Pubkey, texts: seq<seq<u8>>)
    requires |texts| < AnswerSlots
    requires forall i :: 0 <= i < |texts| ==> |texts[i]| <= FieldLen
    ensures Appends(FreshRing(AnswerSlots), SentAnswers(user, texts)).head == |texts|
    ensures Appends(FreshRing(AnswerSlots), SentAnswers(user, texts)).tail == 0
    ensures forall i :: 0 <= i < |texts| ==>
      var slot := Appends(FreshRing(AnswerSlots), SentAnswers(user, texts)).slots[i];
      slot.from == user && slot.data[..|texts[i]|] == texts[i]
    ensures forall i :: |texts| <= i < AnswerSlots ==>
      Appends(FreshRing(AnswerSlots), SentAnswers(user, texts)).slots[i] == EmptyAnswer
  {
    FreshAppends(AnswerSlots, SentAnswers(user, texts));
  }

  // ---------------------------------------------------------------------------
  // The strategy account
  // ---------------------------------------------------------------------------

  /** Bytes of one serialized answer: the sender's key and the data field. */
  const AnswerSize: nat := KeyLen + FieldLen

  /** The largest account the runtime allows: 10 MiB. */
  const MaxAccountSize: nat := 10 * 1024 * 1024

  /** Bytes of a strategy account with `n` slots after its discriminator:
      `head`, `tail`, the name field and the answers, without padding. */
  function StrategyBodySize(n: nat): (size: nat)
    ensures size >= 8 + 8 + FieldLen
    ensures size >= n * AnswerSize
  {
    8 + 8 + FieldLen + n * AnswerSize
  }

  /** With 33607 slots the strategy body is 10,485,680 bytes; with its
      discriminator it stays within the runtime's account limit, and one more
      slot would not fit. */
  lemma StrategyAccountSize()
    ensures StrategyBodySize(AnswerSlots) == 10485680
    ensures State.DiscriminatorLen + StrategyBodySize(AnswerSlots) <= MaxAccountSize
    ensures State.DiscriminatorLen + StrategyBodySize(AnswerSlots + 1) > MaxAccountSize
  {
  }

  class Strategy {
    var head: u64
    var tail: u64
    /** Human-readable name, zero-padded. */
    const name: array<u8>
    const exerciseAnswers: array<ExerciseAnswer>

    ghost function State(): RingState
      reads this, exerciseAnswers
    {
      RingState(head, tail, exerciseAnswers[..])
    }

    ghost predicate Valid()
      reads this, exerciseAnswers
    {
      name.Length == FieldLen && Bounded(State())
    }

    /** The account as the runtime allocates it: every byte zero. */
    constructor (n: nat)
      requires n > 0
      ensures fresh(name) && fresh(exerciseAnswers)
      ensures name[..] == ZeroField
      ensures State() == FreshRing(n)
      ensures Valid()
    {
      head, tail := 0, 0;
      name := new u8[FieldLen](_ => 0);
      exerciseAnswers := new ExerciseAnswer[n](_ => EmptyAnswer);
    }

    /** `Strategy::append`. Every strategy the program produces satisfies
        `Valid()` (the constructor establishes it and `Append` keeps it). */
    method Append(msg: ExerciseAnswer)
      requires Valid()
      requires head + 1 < U64Limit
      modifies this, exerciseAnswers
      ensures State() == Step(old(State()), msg)
      ensures exerciseAnswers[IndexOf(old(head), exerciseAnswers.Length)] == msg
      ensures forall i :: 0 <= i < exerciseAnswers.Length && i != IndexOf(old(head), exerciseAnswers.Length) ==>
        exerciseAnswers[i] == old(exerciseAnswers[i])
      ensures head == old(head) + 1
      ensures tail == if IndexOf(old(head) + 1, exerciseAnswers.Length) == IndexOf(old(tail), exerciseAnswers.Length)
                      then old(tail) + 1 else old(tail)
      ensures unchanged(name)
      ensures Valid()
    {
      ghost var before := State();
      var n := exerciseAnswers.Length;
      exerciseAnswers[IndexOf(head, n)] := msg;
      if IndexOf(head + 1, n) == IndexOf(tail, n) {
        tail := tail + 1;
      }
      head := head + 1;
      StepKeepsBounded(before, msg);
    }
  }

  /** `create_strategy`: stores the zero-padded name. A name longer than the
      field makes the slice copy panic, and the transaction leaves the
      account as it was. */
  method CreateStrategy(strategy: Strategy, given: seq<u8>) returns (status: Status)
    requires strategy.name.Length == FieldLen
    modifies strategy.name
    ensures status == Success <==> |given| <= FieldLen
    ensures status == Success ==> strategy.name[..] == ZeroPadded(given)
    ensures status == Aborted ==> unchanged(strategy.name)
  {
    if |given| > FieldLen {
      return Aborted;
    }
    var padded := ZeroPad(given);
    forall i | 0 <= i < FieldLen {
      strategy.name[i] := padded[i];
    }
    status := Success;
  }

  /** `check_exercise_answer`: appends the zero-padded message, sent from the
      given user account. A message longer than the field panics, and the
      transaction leaves the strategy as it was. */
  method CheckExerciseAnswer(strategy: Strategy, user: Pubkey, msg: seq<u8>) returns (status: Status)
    requires strategy.Valid()
    requires strategy.head + 1 < U64Limit
    modifies strategy, strategy.exerciseAnswers
    ensures status == Success <==> |msg| <= FieldLen
    ensures status == Success ==>
      strategy.State() == Step(old(strategy.State()), ExerciseAnswer(user, ZeroPadded(msg)))
    ensures status == Aborted ==> strategy.State() == old(strategy.State())
    ensures unchanged(strategy.name)
    ensures strategy.Valid()
  {
    if |msg| > FieldLen {
      return Aborted;
    }
    var data := ZeroPad(msg);
    strategy.Append(ExerciseAnswer(user, data[..]));
    status := Success;
  }
}
