/** The challenge validators: each checks a submission's payload (present,
    with the needed fields, a timestamp no more than 300 seconds from the
    server's clock, a hash over the fields) and possibly the answer. The hash
    functions and the clock are parameters. Payload values are JSON
    integers, booleans, strings and null; floats, arrays and objects are not
    modelled. Any check that would raise in the source (arithmetic on a string
    timestamp, say) makes the validator answer false, as its exception handler
    does. */
module Validators {
  import opened Common

  datatype JsonVal = JInt(n: int) | JBool(b: bool) | JStr(s: string) | JNull

  type Payload = map<string, JsonVal>

  /** What the validators see of a submission. A missing payload reads as an
      empty one; a missing answer as 0. */
  datatype Submission = Submission(payload: Payload, answer: Option<JsonVal>)

  datatype Hashes = Hashes(md5: string -> string, sha256: string -> string)

  /** Python `str(v)` and f-string formatting of a JSON value. */
  function Format(v: JsonVal): string {
    match v
    case JInt(n) => IntToString(n)
    case JBool(b) => if b then "True" else "False"
    case JStr(s) => s
    case JNull => "None"
  }

  /** A value usable in integer arithmetic: Python's `bool` is an `int`. */
  function AsInt(v: JsonVal): Option<int> {
    match v
    case JInt(n) => Some(n)
    case JBool(b) => Some(if b then 1 else 0)
    case _ => None
  }

  /** `payload.get(key, default)` */
  function GetOr(p: Payload, key: string, default: JsonVal): JsonVal {
    if key in p then p[key] else default
  }

  function AnswerOf(sub: Submission): JsonVal {
    if sub.answer.Some? then sub.answer.value else JInt(0)
  }

  function Abs(x: int): int {
    if x < 0 then -x else x
  }

  const FreshnessWindow: int := 300

  /** The timestamp lies within five minutes of the server's clock. A
      timestamp that is not a number cannot be subtracted and fails. */
  predicate TimestampFresh(ts: JsonVal, now: int) {
    AsInt(ts).Some? && Abs(now - AsInt(ts).value) <= FreshnessWindow
  }

  /** The first three checks every validator makes: a non-empty payload with
      both required fields and a fresh timestamp. */
  predicate Admissible(p: Payload, hashField: string, now: int) {
    |p| > 0 && "timestamp" in p && hashField in p && TimestampFresh(p["timestamp"], now)
  }

  // ---------------------------------------------------------------------------
  // MD5-parameter exercises

  /** The string whose MD5 the client sends with every page request. */
  function Md5Input(ts: JsonVal): string {
    Format(ts) + "spider"
  }

  /** `Exercise1Validator.validate`: the checks in source order. */
  function Exercise1Validate(sub: Submission, now: int, h: Hashes): (ok: bool)
    ensures ok <==> Admissible(sub.payload, "md5Param", now)
                    && sub.payload["md5Param"] == JStr(h.md5(Md5Input(sub.payload["timestamp"])))
  {
    var p := sub.payload;
    if |p| == 0 then false
    else if "timestamp" !in p || "md5Param" !in p then false
    else if AsInt(p["timestamp"]).None? then false
    else if Abs(now - AsInt(p["timestamp"]).value) > FreshnessWindow then false
    else if p["md5Param"] != JStr(h.md5(Md5Input(p["timestamp"]))) then false
    else true
  }

  /** A client that follows the hint is accepted for any answer; a timestamp
      more than five minutes off is refused whatever the hash. */
  lemma Exercise1Honest(ts: int, now: int, h: Hashes, answer: Option<JsonVal>, extra: Payload)
    ensures var p := extra["timestamp" := JInt(ts)]["md5Param" := JStr(h.md5(IntToString(ts) + "spider"))];
      Exercise1Validate(Submission(p, answer), now, h) <==> Abs(now - ts) <= 300
  {
    var p := extra["timestamp" := JInt(ts)]["md5Param" := JStr(h.md5(IntToString(ts) + "spider"))];
    assert "md5Param" in p;
  }

  /** `FirstExerciseValidator.validate`: the same checks, then the answer must
      be a non-negative integer. */
  function FirstExerciseValidate(sub: Submission, now: int, h: Hashes): (ok: bool)
    ensures ok <==> Exercise1Validate(sub, now, h) && AsInt(AnswerOf(sub)).Some? && AsInt(AnswerOf(sub)).value >= 0
  {
    var p := sub.payload;
    if |p| == 0 then false
    else if "timestamp" !in p || "md5Param" !in p then false
    else if AsInt(p["timestamp"]).None? then false
    else if Abs(now - AsInt(p["timestamp"]).value) > FreshnessWindow then false
    else if p["md5Param"] != JStr(h.md5(Md5Input(p["timestamp"]))) then false
    else
      var answer := AnswerOf(sub);
      if AsInt(answer).None? || AsInt(answer).value < 0 then false
      else true
  }

  /** A missing answer counts as 0 and passes; a negative or textual one is
      refused. */
  lemma FirstExerciseAnswers(sub: Submission, now: int, h: Hashes)
    requires Exercise1Validate(sub, now, h)
    ensures FirstExerciseValidate(sub.(answer := None), now, h)
    ensures !FirstExerciseValidate(sub.(answer := Some(JInt(-1))), now, h)
    ensures !FirstExerciseValidate(sub.(answer := Some(JStr("1"))), now, h)
  {
  }

  // ---------------------------------------------------------------------------
  // Signed exercises

  /** The fields of a signature, joined with ':' and ending in a fixed tag. */
  function SignInput(p: Payload, fourth: JsonVal, tag: string): string {
    Join([Format(GetOr(p, "answer", JInt(0))), Format(GetOr(p, "timeSpent", JInt(0))),
          Format(GetOr(p, "timestamp", JInt(0))), Format(fourth), tag], ':')
  }

  const Exercise2Tag: string := "dynamic_font"
  const Exercise3Tag: string := "encrypted_font"

  /** `Exercise2Validator._generate_sign`'s input. */
  function Exercise2SignInput(p: Payload): string {
    SignInput(p, GetOr(p, "encodingKey", JStr("")), Exercise2Tag)
  }

  /** `Exercise3Validator._generate_sign`'s input. */
  function Exercise3SignInput(p: Payload, shift: JsonVal): string {
    SignInput(p, shift, Exercise3Tag)
  }

  lemma NatToStringNoColon(n: nat)
    ensures ':' !in NatToString(n)
  {
    var s := NatToString(n);
    assert forall i :: 0 <= i < |s| ==> s[i] != ':' by {
      assert AllDigits(s);
    }
  }

  lemma IntToStringNoColon(n: int)
    ensures ':' !in IntToString(n)
  {
    NatToStringNoColon(if n < 0 then -n else n);
  }

  /** The signed string encodes its fields unambiguously: for integer fields
      and a key without ':' it splits back into the five parts, and the three
      numbers parse back to the submitted values. */
  lemma SignInputDecodes(answer: int, timeSpent: int, ts: int, key: string, p: Payload)
    requires ':' !in key
    requires p == map["answer" := JInt(answer), "timeSpent" := JInt(timeSpent), "timestamp" := JInt(ts),
                       "encodingKey" := JStr(key)]
    ensures var parts := Split(Exercise2SignInput(p), ':');
      && parts == [IntToString(answer), IntToString(timeSpent), IntToString(ts), key, Exercise2Tag]
      && ParseInt(parts[0]) == Some(answer)
      && ParseInt(parts[1]) == Some(timeSpent)
      && ParseInt(parts[2]) == Some(ts)
  {
    var xs := [IntToString(answer), IntToString(timeSpent), IntToString(ts), key, Exercise2Tag];
    IntToStringNoColon(answer);
    IntToStringNoColon(timeSpent);
    IntToStringNoColon(ts);
    assert ':' !in Exercise2Tag;
    assert Exercise2SignInput(p) == Join(xs, ':');
    SplitJoin(xs, ':');
    IntToStringRoundTrip(answer);
    IntToStringRoundTrip(timeSpent);
    IntToStringRoundTrip(ts);
  }

  /** `_calculate_expected_answer` of exercise 2: the numbers
      `(timestamp + page*10 + pos) mod 100` over ten pages of ten. */
  method CalculateExpectedAnswer2(timestamp: int) returns (total: int)
    ensures total == ModWindowSum(timestamp, 100, 100)
    ensures total == 4950
  {
    total := 0;
    var page := 0;
    while page < 10
      invariant 0 <= page <= 10
      invariant total == ModWindowSum(timestamp, page * 10, 100)
    {
      var pos := 0;
      while pos < 10
        invariant 0 <= pos <= 10
        invariant total == ModWindowSum(timestamp, page * 10 + pos, 100)
      {
        total := total + (timestamp + page * 10 + pos) % 100;
        pos := pos + 1;
      }
      page := page + 1;
    }
    ModWindowMultiple(timestamp, 1, 100);
  }

  /** The expected answer as a value, for use inside the validator. */
  function Exercise2Expected(timestamp: int): int {
    ModWindowSum(timestamp, 100, 100)
  }

  /** It never depends on the timestamp: every residue modulo 100 appears
      once, so the sum is 0 + 1 + ... + 99. */
  lemma Exercise2ExpectedIsConstant(timestamp: int)
    ensures Exercise2Expected(timestamp) == 4950
  {
    ModWindowMultiple(timestamp, 1, 100);
  }

  /** `Exercise2Validator.validate`: the common checks, the SHA-256 signature
      over the payload's fields, and the submission's answer (not the
      payload's) against the expected answer of the submitted timestamp. */
  function Exercise2Validate(sub: Submission, now: int, h: Hashes): (ok: bool)
    ensures ok <==> Admissible(sub.payload, "sign", now)
                    && sub.payload["sign"] == JStr(h.sha256(Exercise2SignInput(sub.payload)))
                    && AnswerOf(sub) == JInt(4950)
  {
    var p := sub.payload;
    if |p| == 0 then false
    else if "timestamp" !in p || "sign" !in p then false
    else if AsInt(p["timestamp"]).None? then false
    else if Abs(now - AsInt(p["timestamp"]).value) > FreshnessWindow then false
    else if p["sign"] != JStr(h.sha256(Exercise2SignInput(p))) then false
    else
      var expected := Exercise2Expected(AsInt(p["timestamp"]).value);
      Exercise2ExpectedIsConstant(AsInt(p["timestamp"]).value);
      AnswerOf(sub) == JInt(expected)
  }

  /** `int(c)` for a character `c` that `isdigit`, and 0 otherwise. */
  function DigitValue(c: char): nat {
    if IsDigit(c) then c as int - '0' as int else 0
  }

  /** The sum of the digits of `s` from position `i` on. */
  function DigitsFrom(s: string, i: nat): nat
    decreases |s| - i
  {
    if i >= |s| then 0 else DigitValue(s[i]) + DigitsFrom(s, i + 1)
  }

  const EncryptedData: seq<string> := ["a1b2c3d4e5", "f6g7h8i9j0", "k1l2m3n4o5", "p6q7r8s9t0", "u1v2w3x4y5"]

  /** `_calculate_expected_answer` of exercise 3: the digits of the five
      fixed strings, added up. The shift is accepted and ignored. */
  method CalculateExpectedAnswer3(shift: JsonVal) returns (total: int)
    ensures total == 105
  {
    total := 0;
    var k := 0;
    while k < |EncryptedData|
      invariant 0 <= k <= |EncryptedData|
      invariant total == Exercise3Partial(k)
    {
      total := total + DigitsFrom(EncryptedData[k], 0);
      k := k + 1;
    }
    Exercise3Total();
  }

  /** The digit sums of the first `k` fixed strings. */
  function Exercise3Partial(k: nat): nat
    requires k <= |EncryptedData|
  {
    if k == 0 then 0 else Exercise3Partial(k - 1) + DigitsFrom(EncryptedData[k - 1], 0)
  }

  lemma Exercise3Total()
    ensures Exercise3Partial(|EncryptedData|) == 105
  {
    EntryDigits(0);
    EntryDigits(1);
    EntryDigits(2);
    EntryDigits(3);
    EntryDigits(4);
  }

  /** The fixed strings alternate between digit sums 15 (1+2+3+4+5) and 30
      (6+7+8+9+0). */
  lemma EntryDigits(i: nat)
    requires i < |EncryptedData|
    ensures DigitsFrom(EncryptedData[i], 0) == if i % 2 == 0 then 15 else 30
  {
    var e := EncryptedData[i];
    if i == 0 {
      assert e == "a1b2c3d4e5";
      StringDigits("a1b2c3d4e5", 15);
    } else if i == 1 {
      assert e == "f6g7h8i9j0";
      StringDigits("f6g7h8i9j0", 30);
    } else if i == 2 {
      assert e == "k1l2m3n4o5";
      StringDigits("k1l2m3n4o5", 15);
    } else if i == 3 {
      assert e == "p6q7r8s9t0";
      StringDigits("p6q7r8s9t0", 30);
    } else {
      assert e == "u1v2w3x4y5";
      StringDigits("u1v2w3x4y5", 15);
    }
  }

  /** Letters and digits alternate, so the digit sum is that of the odd
      positions. */
  lemma StringDigits(e: string, sum: nat)
    requires |e| == 10 && forall k :: 0 <= k < 10 && k % 2 == 0 ==> !IsDigit(e[k])
    requires DigitValue(e[1]) + DigitValue(e[3]) + DigitValue(e[5]) + DigitValue(e[7]) + DigitValue(e[9]) == sum
    ensures DigitsFrom(e, 0) == sum
  {
    assert DigitsFrom(e, 9) == DigitValue(e[9]) + DigitsFrom(e, 10);
    assert DigitsFrom(e, 8) == DigitValue(e[9]);
    assert DigitsFrom(e, 6) == DigitValue(e[7]) + DigitValue(e[9]);
    assert DigitsFrom(e, 4) == DigitValue(e[5]) + DigitValue(e[7]) + DigitValue(e[9]);
    assert DigitsFrom(e, 2) == DigitValue(e[3]) + DigitValue(e[5]) + DigitValue(e[7]) + DigitValue(e[9]);
  }

  function Exercise3Expected(shift: JsonVal): (r: nat)
    ensures r == 105
  {
    Exercise3Total();
    Exercise3Partial(|EncryptedData|)
  }

  const DefaultShift: JsonVal := JInt(13)

  /** `Exercise3Validator.validate`: as exercise 2, with the shift from the
      public parameters in the signature and the fixed expected answer. */
  function Exercise3Validate(sub: Submission, publicParams: Payload, now: int, h: Hashes): (ok: bool)
    ensures ok <==> Admissible(sub.payload, "sign", now)
                    && sub.payload["sign"] == JStr(h.sha256(Exercise3SignInput(sub.payload, GetOr(publicParams, "shift", DefaultShift))))
                    && AnswerOf(sub) == JInt(105)
  {
    var p := sub.payload;
    var shift := GetOr(publicParams, "shift", DefaultShift);
    if |p| == 0 then false
    else if "timestamp" !in p || "sign" !in p then false
    else if AsInt(p["timestamp"]).None? then false
    else if Abs(now - AsInt(p["timestamp"]).value) > FreshnessWindow then false
    else if p["sign"] != JStr(h.sha256(Exercise3SignInput(p, shift))) then false
    else AnswerOf(sub) == JInt(Exercise3Expected(shift))
  }

  /** A client that signs its own fields correctly within the window is
      accepted on exercise 2 exactly when it submits 4950, and on exercise 3
      exactly when it submits 105, whatever the timestamp. */
  lemma SignedHonest(answer: int, timeSpent: int, ts: int, key: string, now: int, h: Hashes,
                     publicParams: Payload, submitted: int)
    requires Abs(now - ts) <= 300
    ensures var base := map["answer" := JInt(answer), "timeSpent" := JInt(timeSpent), "timestamp" := JInt(ts),
                            "encodingKey" := JStr(key)];
      var p2 := base["sign" := JStr(h.sha256(Exercise2SignInput(base)))];
      var p3 := base["sign" := JStr(h.sha256(Exercise3SignInput(base, GetOr(publicParams, "shift", DefaultShift))))];
      && (Exercise2Validate(Submission(p2, Some(JInt(submitted))), now, h) <==> submitted == 4950)
      && (Exercise3Validate(Submission(p3, Some(JInt(submitted))), publicParams, now, h) <==> submitted == 105)
  {
    var base := map["answer" := JInt(answer), "timeSpent" := JInt(timeSpent), "timestamp" := JInt(ts),
                    "encodingKey" := JStr(key)];
    var shift := GetOr(publicParams, "shift", DefaultShift);
    var p2 := base["sign" := JStr(h.sha256(Exercise2SignInput(base)))];
    var p3 := base["sign" := JStr(h.sha256(Exercise3SignInput(base, shift)))];
    assert "sign" !in base;
    assert GetOr(p2, "answer", JInt(0)) == GetOr(base, "answer", JInt(0));
    assert Exercise2SignInput(p2) == Exercise2SignInput(base);
    assert Exercise3SignInput(p3, shift) == Exercise3SignInput(base, shift);
  }

  // ---------------------------------------------------------------------------
  // The registry

  datatype Validator = Noop | FirstExercise | Exercise1 | Exercise2 | Exercise3

  /** `get_public_params` of each validator; `now` is `int(time.time())`.
      The first-exercise validator publishes no version and no exercise id. */
  function PublicParams(v: Validator, exerciseId: int, now: int): (r: Payload)
    ensures v != FirstExercise ==> "version" in r
    ensures v == FirstExercise ==> r.Keys == {"timestamp", "hint"}
    ensures v != Noop ==> "timestamp" in r && r["timestamp"] == JInt(now) && "hint" in r
    ensures v != Noop && v != FirstExercise ==> "exercise_id" in r && r["exercise_id"] == JInt(exerciseId)
    ensures v == Noop ==> r == map["version" := JStr("1.0.0")]
  {
    match v
    case Noop => map["version" := JStr("1.0.0")]
    case FirstExercise =>
      map["timestamp" := JInt(now), "hint" := JStr("翻页时需要携带 MD5(timestamp + 'spider') 参数")]
    case Exercise1 =>
      map["version" := JStr("1.0.0"), "exercise_id" := JInt(exerciseId), "timestamp" := JInt(now),
          "hint" := JStr("翻页时需要携带 MD5(timestamp + 'spider') 参数")]
    case Exercise2 =>
      map["version" := JStr("2.1.3"), "exercise_id" := JInt(exerciseId), "timestamp" := JInt(now),
          "encodingKey" := JStr("dynamic_" + IntToString(now)),
          "hint" := JStr("字体文件会动态变化，需要实时解析"), "algorithm" := JStr("dynamic_font_encoding")]
    case Exercise3 =>
      map["version" := JStr("3.0.0"), "exercise_id" := JInt(exerciseId), "timestamp" := JInt(now),
          "hint" := JStr("使用Caesar算法，偏移量为13"), "algorithm" := JStr("Caesar"),
          "shift" := JInt(13), "cipherKey" := JStr("ROT13")]
  }

  function Validate(v: Validator, sub: Submission, publicParams: Payload, now: int, h: Hashes): (ok: bool)
    ensures v == Noop ==> ok
  {
    match v
    case Noop => true
    case FirstExercise => FirstExerciseValidate(sub, now, h)
    case Exercise1 => Exercise1Validate(sub, now, h)
    case Exercise2 => Exercise2Validate(sub, now, h)
    case Exercise3 => Exercise3Validate(sub, publicParams, now, h)
  }

  /** Exercise 3 uses the shift it published: with its own public parameters
      the signature covers shift 13 and the answer is 105. */
  lemma Exercise3OwnParams(sub: Submission, exerciseId: int, issued: int, now: int, h: Hashes)
    ensures Validate(Exercise3, sub, PublicParams(Exercise3, exerciseId, issued), now, h)
        <==> Admissible(sub.payload, "sign", now)
             && sub.payload["sign"] == JStr(h.sha256(Exercise3SignInput(sub.payload, JInt(13))))
             && AnswerOf(sub) == JInt(105)
  {
    assert GetOr(PublicParams(Exercise3, exerciseId, issued), "shift", DefaultShift) == JInt(13);
  }

  /** An empty payload is refused by every validator except the no-op one. */
  lemma EmptyPayloadRefused(v: Validator, answer: Option<JsonVal>, publicParams: Payload, now: int, h: Hashes)
    requires v != Noop
    ensures !Validate(v, Submission(map[], answer), publicParams, now, h)
  {
  }

  type Registry = map<int, Validator>

  /** `register_validator`: the id now maps to the validator. */
  function Register(reg: Registry, exerciseId: int, v: Validator): (r: Registry)
    ensures exerciseId in r && r[exerciseId] == v
    ensures forall id :: id != exerciseId ==> (id in r <==> id in reg)
    ensures forall id :: id != exerciseId && id in reg ==> r[id] == reg[id]
  {
    reg[exerciseId := v]
  }

  /** `get_validator_for_exercise`: `dict.get`, None for an unknown id. */
  function Lookup(reg: Registry, exerciseId: int): (r: Option<Validator>)
    ensures r.None? <==> exerciseId !in reg
    ensures r.Some? ==> r.value == reg[exerciseId]
  {
    if exerciseId in reg then Some(reg[exerciseId]) else None
  }

  /** Registration is seen by the next lookup, leaves other ids alone, and the
      latest registration of an id wins. */
  lemma RegistryLaws(reg: Registry, a: int, b: int, v: Validator, w: Validator)
    ensures Lookup(Register(reg, a, v), a) == Some(v)
    ensures a != b ==> Lookup(Register(reg, a, v), b) == Lookup(reg, b)
    ensures Register(Register(reg, a, v), a, w) == Register(reg, a, w)
    ensures Lookup(map[], a).None?
  {
  }
}
