/** The trader and exercise account records, their serialized layout, and the
    closed-form account sizes the program allocates for them. */
module State {
  import opened Bytes

  /** Every account starts with an 8-byte type discriminator (a hash prefix
      computed by the framework; here it is any 8 bytes). */
  const DiscriminatorLen: nat := 8
  type Discriminator = d: seq<u8> | |d| == DiscriminatorLen witness seq(8, _ => 0)

  /** `size_of::<Validation>()`: an 8-byte `i64` and two 32-byte keys, no padding. */
  const ValidationSize: nat := 72

  /** The largest `validations_capacity`, which is a `u8`. */
  const MaxCapacity: nat := 255

  datatype Trader = Trader(user: Pubkey, name: seq<u8>, performance: u64, bump: u8)

  datatype Validation = Validation(value: i64, trader: Pubkey, user: Pubkey)

  datatype Exercise = Exercise(
    full: bool,
    cid: seq<u8>,
    authority: Pubkey,
    outcome: i64,
    solutionCid: seq<u8>,
    validationsCapacity: u8,
    validations: seq<Validation>,
    bump: u8)

  // ---- Serialized layout (fields in declaration order, integers little-endian,
  // ---- strings and vectors prefixed by a 4-byte length)

  function U64Bytes(x: u64): (r: seq<u8>)
    ensures |r| == 8 && FromLittleEndian(r) == x
  {
    Pow256Values();
    LittleEndian(x, 8)
  }

  function I64Bytes(x: i64): (r: seq<u8>)
    ensures |r| == 8 && FromLittleEndian(r) == TwosComplement(x)
  {
    U64Bytes(TwosComplement(x))
  }

  function LengthPrefix(len: nat): (r: seq<u8>)
    requires len < U32Limit
    ensures |r| == 4 && FromLittleEndian(r) == len
  {
    Pow256Values();
    LittleEndian(len, 4)
  }

  function StringBytes(s: seq<u8>): (r: seq<u8>)
    requires |s| < U32Limit
    ensures |r| == 4 + |s| && r[..4] == LengthPrefix(|s|) && r[4..] == s
  {
    LengthPrefix(|s|) + s
  }

  function ValidationBytes(v: Validation): (r: seq<u8>)
    ensures |r| == ValidationSize
  {
    I64Bytes(v.value) + v.trader + v.user
  }

  /** Equal-sized chunks of `ValidationSize` bytes, one after the other. */
  function Concat(chunks: seq<seq<u8>>): (r: seq<u8>)
    requires forall i :: 0 <= i < |chunks| ==> |chunks[i]| == ValidationSize
    ensures |r| == ValidationSize * |chunks|
    ensures forall i :: 0 <= i < |chunks| ==>
      r[ValidationSize * i..ValidationSize * (i + 1)] == chunks[i]
  {
    if chunks == [] then []
    else
      var first, rest := chunks[0], Concat(chunks[1..]);
      SliceOfPrefix(first, rest, 0, ValidationSize);
      forall i | 1 <= i < |chunks|
        ensures (first + rest)[ValidationSize * i..ValidationSize * (i + 1)] == chunks[i]
      {
        SliceAt(first, rest, ValidationSize * (i - 1), ValidationSize * i);
      }
      first + rest
  }

  /** The serialized validations one after the other, each taking `ValidationSize` bytes. */
  function ValidationsBytes(vs: seq<Validation>): (r: seq<u8>)
    ensures |r| == ValidationSize * |vs|
    ensures forall i :: 0 <= i < |vs| ==>
      r[ValidationSize * i..ValidationSize * (i + 1)] == ValidationBytes(vs[i])
  {
    var chunks := seq(|vs|, i requires 0 <= i < |vs| => ValidationBytes(vs[i]));
    assert forall i :: 0 <= i < |vs| ==> chunks[i] == ValidationBytes(vs[i]);
    Concat(chunks)
  }

  predicate TraderSerializable(t: Trader)
  {
    |t.name| < U32Limit
  }

  /** A trader's fields, already encoded, one after the other. */
  function TraderLayout(user: Pubkey, nameLen: seq<u8>, name: seq<u8>, perf: seq<u8>, bump: u8): (r: seq<u8>)
    requires |nameLen| == 4 && |perf| == 8
    ensures |r| == KeyLen + 4 + |name| + 8 + 1
    ensures r[..KeyLen] == user
    ensures r[KeyLen..KeyLen + 4] == nameLen
    ensures r[KeyLen + 4..KeyLen + 4 + |name|] == name
    ensures r[KeyLen + 4 + |name|..|r| - 1] == perf
    ensures r[|r| - 1] == bump
  {
    var afterName := perf + [bump];
    var afterLen := name + afterName;
    var afterUser := nameLen + afterLen;
    SliceOfPrefix(user, afterUser, 0, KeyLen);
    SliceAt(user, afterUser, 0, 4);
    SliceOfPrefix(nameLen, afterLen, 0, 4);
    SliceAt(user, afterUser, 4, 4 + |name|);
    SliceAt(nameLen, afterLen, 0, |name|);
    SliceOfPrefix(name, afterName, 0, |name|);
    SliceAt(user, afterUser, 4 + |name|, 4 + |name| + 8);
    SliceAt(nameLen, afterLen, |name|, |name| + 8);
    SliceAt(name, afterName, 0, 8);
    SliceOfPrefix(perf, [bump], 0, 8);
    user + afterUser
  }

  /** The serialized trader: user key, length-prefixed name, performance, bump. */
  function SerializeTrader(t: Trader): (r: seq<u8>)
    requires TraderSerializable(t)
    ensures |r| == KeyLen + 4 + |t.name| + 8 + 1
    ensures r[..KeyLen] == t.user
    ensures FromLittleEndian(r[KeyLen..KeyLen + 4]) == |t.name|
    ensures r[KeyLen + 4..KeyLen + 4 + |t.name|] == t.name
    ensures FromLittleEndian(r[KeyLen + 4 + |t.name|..|r| - 1]) == t.performance
    ensures r[|r| - 1] == t.bump
  {
    TraderLayout(t.user, LengthPrefix(|t.name|), t.name, U64Bytes(t.performance), t.bump)
  }

  predicate ExerciseSerializable(e: Exercise)
  {
    |e.cid| < U32Limit && |e.solutionCid| < U32Limit && |e.validations| < U32Limit
  }

  /** The leading fields of an exercise, already encoded, followed by the rest. */
  function ExerciseLayout(full: u8, cidLen: seq<u8>, cid: seq<u8>, authority: Pubkey, rest: seq<u8>): (r: seq<u8>)
    requires |cidLen| == 4
    ensures |r| == 1 + 4 + |cid| + KeyLen + |rest|
    ensures r[0] == full
    ensures r[1..5] == cidLen
    ensures r[5..5 + |cid|] == cid
    ensures r[5 + |cid|..5 + |cid| + KeyLen] == authority
    ensures r[5 + |cid| + KeyLen..] == rest
  {
    var afterCid := authority + rest;
    var afterLen := cid + afterCid;
    var afterFull := cidLen + afterLen;
    SliceAt([full], afterFull, 0, 4);
    SliceOfPrefix(cidLen, afterLen, 0, 4);
    SliceAt([full], afterFull, 4, 4 + |cid|);
    SliceAt(cidLen, afterLen, 0, |cid|);
    SliceOfPrefix(cid, afterCid, 0, |cid|);
    SliceAt([full], afterFull, 4 + |cid|, 4 + |cid| + KeyLen);
    SliceAt(cidLen, afterLen, |cid|, |cid| + KeyLen);
    SliceAt(cid, afterCid, 0, KeyLen);
    SliceOfPrefix(authority, rest, 0, KeyLen);
    SliceAt([full], afterFull, 4 + |cid| + KeyLen, |afterFull|);
    SliceAt(cidLen, afterLen, |cid| + KeyLen, |afterLen|);
    SliceAt(cid, afterCid, KeyLen, |afterCid|);
    SliceAt(authority, rest, 0, |rest|);
    [full] + afterFull
  }

  /** The serialized exercise: every field in declaration order. */
  function SerializeExercise(e: Exercise): (r: seq<u8>)
    requires ExerciseSerializable(e)
    ensures |r| == 1 + (4 + |e.cid|) + KeyLen + 8 + (4 + |e.solutionCid|) + 1
      + 4 + ValidationSize * |e.validations| + 1
    ensures r[0] == (if e.full then 1 else 0)
    ensures FromLittleEndian(r[1..5]) == |e.cid|
    ensures r[5..5 + |e.cid|] == e.cid
    ensures r[5 + |e.cid|..5 + |e.cid| + KeyLen] == e.authority
    ensures r[|r| - 1] == e.bump
  {
    var rest := ExerciseTrailer(e);
    var r := ExerciseLayout(if e.full then 1 else 0, LengthPrefix(|e.cid|), e.cid, e.authority, rest);
    assert r[|r| - 1] == rest[|rest| - 1];
    r
  }

  /** The fields that follow the authority: outcome, solution cid, capacity,
      validations, bump. */
  function ExerciseTrailer(e: Exercise): (r: seq<u8>)
    requires ExerciseSerializable(e)
    ensures |r| == 8 + (4 + |e.solutionCid|) + 1 + 4 + ValidationSize * |e.validations| + 1
    ensures r[|r| - 1] == e.bump
  {
    I64Bytes(e.outcome) + StringBytes(e.solutionCid) + [e.validationsCapacity]
      + LengthPrefix(|e.validations|) + ValidationsBytes(e.validations) + [e.bump]
  }

  // ---- Account sizes

  /** `Trader::space`: discriminator, user key, length-prefixed name, performance, bump. */
  function TraderSpace(name: seq<u8>): (n: nat)
    ensures n > |name|
  {
    DiscriminatorLen + KeyLen + (4 + |name|) + 8 + 1
  }

  /** `Exercise::space`: discriminator, `full`, cid, authority, outcome,
      solution cid (sized by the cid's length), capacity, the vector of
      `validations_capacity` validations, bump. */
  function ExerciseSpace(cid: seq<u8>, validationsCapacity: u8): (n: nat)
    ensures n > 2 * |cid| + ValidationSize * validationsCapacity
  {
    DiscriminatorLen + 1 + (4 + |cid|) + KeyLen + 8 + (4 + |cid|) + 1
      + 4 + validationsCapacity * ValidationSize + 1
  }

  lemma TraderSpaceClosedForm(name: seq<u8>)
    ensures TraderSpace(name) == 53 + |name|
  {
  }

  /** A longer name needs strictly more space; no trader account is smaller than 53 bytes. */
  lemma TraderSpaceIncreasing(a: seq<u8>, b: seq<u8>)
    ensures |a| < |b| ==> TraderSpace(a) < TraderSpace(b)
    ensures TraderSpace(a) >= 53
  {
  }

  /** The allocated space is exactly the size of the serialized account. */
  lemma {:induction false} TraderSpaceIsSerializedSize(d: Discriminator, t: Trader)
    requires TraderSerializable(t)
    ensures |d + SerializeTrader(t)| == TraderSpace(t.name)
  {
  }

  lemma ExerciseSpaceClosedForm(cid: seq<u8>, validationsCapacity: u8)
    ensures ExerciseSpace(cid, validationsCapacity) == 63 + 2 * |cid| + ValidationSize * validationsCapacity
  {
  }

  lemma ExerciseSpaceMonotone(cid1: seq<u8>, cap1: u8, cid2: seq<u8>, cap2: u8)
    requires |cid1| <= |cid2| && cap1 <= cap2
    ensures ExerciseSpace(cid1, cap1) <= ExerciseSpace(cid2, cap2)
    ensures |cid1| < |cid2| || cap1 < cap2 ==> ExerciseSpace(cid1, cap1) < ExerciseSpace(cid2, cap2)
  {
  }

  /** Because the capacity is a `u8`, no exercise account needs more than this. */
  lemma ExerciseSpaceBound(cid: seq<u8>, validationsCapacity: u8)
    ensures ExerciseSpace(cid, validationsCapacity) <= 63 + 2 * |cid| + ValidationSize * MaxCapacity
  {
  }

  /** A serialized validation takes exactly `size_of::<Validation>()` bytes. */
  lemma ValidationSizeIsSerializedSize(v: Validation)
    ensures |ValidationBytes(v)| == ValidationSize
  {
  }

  /** The size of a serialized exercise account. */
  lemma {:induction false} ExerciseSerializedSize(d: Discriminator, e: Exercise)
    requires ExerciseSerializable(e)
    ensures |d + SerializeExercise(e)|
      == 63 + |e.cid| + |e.solutionCid| + ValidationSize * |e.validations|
  {
  }

  /** The space allocated for an exercise holds the serialized account exactly
      when the solution cid and the validations together take no more room
      than a solution cid as long as the cid and a full vector of
      `validations_capacity` validations; it is filled to the last byte exactly
      when both are at their largest. */
  lemma {:induction false} ExerciseSpaceFits(d: Discriminator, e: Exercise)
    requires ExerciseSerializable(e)
    ensures (|d + SerializeExercise(e)| <= ExerciseSpace(e.cid, e.validationsCapacity))
      <==> (|e.solutionCid| + ValidationSize * |e.validations| <= |e.cid| + ValidationSize * e.validationsCapacity)
    ensures |e.solutionCid| <= |e.cid| && |e.validations| <= e.validationsCapacity ==>
      ((|d + SerializeExercise(e)| == ExerciseSpace(e.cid, e.validationsCapacity))
       <==> (|e.solutionCid| == |e.cid| && |e.validations| == e.validationsCapacity))
  {
    ExerciseSerializedSize(d, e);
  }
}
