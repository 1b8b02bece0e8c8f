/** `make_password_recovery_code` of glitter_utils.py: the user id's decimal
    digits written as letters 'A'..'J', between a "%d%m" date stamp and a
    "%H%M" time stamp. The two clock readings are parameters. */
module RecoveryCodes {
  import opened Outcomes

  /** The `translate` table: digit d becomes the d-th capital letter. */
  const Translate: map<char, char> :=
    map['0' := 'A', '1' := 'B', '2' := 'C', '3' := 'D', '4' := 'E',
        '5' := 'F', '6' := 'G', '7' := 'H', '8' := 'I', '9' := 'J']

  predicate IsDigit(c: char)
  {
    '0' <= c <= '9'
  }

  function DigitValue(c: char): (d: nat)
    requires IsDigit(c)
    ensures d < 10
  {
    c as int - '0' as int
  }

  /** The letter `translate` gives for a digit. */
  predicate IsLetterFor(l: char, c: char)
    requires IsDigit(c)
  {
    l as int == 'A' as int + DigitValue(c)
  }

  /** The table's keys are exactly the ten digits, and digit d maps to the
      d-th capital letter. */
  lemma TranslateIsLetterShift(c: char)
    ensures c in Translate <==> IsDigit(c)
    ensures c in Translate ==> IsLetterFor(Translate[c], c)
  {
    if IsDigit(c) {
      var d := c as int - '0' as int;
      assert d == 0 || d == 1 || d == 2 || d == 3 || d == 4 || d == 5 || d == 6 || d == 7 || d == 8 || d == 9;
    }
  }

  /** `"".join([translate[char] for char in id])`. A character that is not a
      key raises KeyError; the first such character, in the order the
      comprehension visits them, is the one reported. */
  function Letters(id: string): (r: Result<string, char>)
    ensures r.Ok? <==> forall i :: 0 <= i < |id| ==> IsDigit(id[i])
    ensures r.Ok? ==> |r.value| == |id|
    ensures r.Ok? ==> forall i :: 0 <= i < |id| ==> IsLetterFor(r.value[i], id[i])
    ensures r.Err? ==> exists k :: 0 <= k < |id| && id[k] == r.error && !IsDigit(id[k])
                                   && forall j :: 0 <= j < k ==> IsDigit(id[j])
  {
    if id == [] then Ok([])
    else
      TranslateIsLetterShift(id[0]);
      if id[0] !in Translate then Err(id[0])
      else match Letters(id[1..])
        case Ok(rest) =>
          assert forall i :: 1 <= i < |id| ==> id[i] == id[1..][i - 1];
          Ok([Translate[id[0]]] + rest)
        case Err(key) =>
          ghost var k :| 0 <= k < |id[1..]| && id[1..][k] == key && !IsDigit(id[1..][k])
                         && forall j :: 0 <= j < k ==> IsDigit(id[1..][j]);
          assert forall j :: 1 <= j < k + 1 ==> id[j] == id[1..][j - 1];
          assert id[k + 1] == key;
          Err(key)
  }

  /** Inverse of the table: 'A'..'J' back to '0'..'9'; anything else is not a
      letter the table produces. */
  function Digits(letters: string): (r: Option<string>)
    ensures r.Some? ==> |r.value| == |letters|
    decreases |letters|
  {
    if letters == [] then Some([])
    else if !('A' <= letters[0] <= 'J') then None
    else match Digits(letters[1..])
      case Some(rest) => Some([('0' as int + (letters[0] as int - 'A' as int)) as char] + rest)
      case None => None
  }

  /** Letters and Digits are inverse: a digit string and a string over
      'A'..'J' correspond exactly when one translates to the other. */
  lemma {:induction false} LettersDigitsInverse(id: string, letters: string)
    ensures Letters(id) == Ok(letters) <==> Digits(letters) == Some(id)
    decreases |id|
  {
    if id != [] && letters != [] {
      LettersDigitsInverse(id[1..], letters[1..]);
      TranslateIsLetterShift(id[0]);
      assert id == [id[0]] + id[1..];
      assert letters == [letters[0]] + letters[1..];
    }
  }

  /** One reading of `datetime.now()`, down to the minute. */
  datatype Clock = Clock(day: nat, month: nat, hour: nat, minute: nat) {
    /** The ranges `datetime` guarantees. */
    predicate Valid()
    {
      1 <= day <= 31 && 1 <= month <= 12 && hour < 24 && minute < 60
    }
  }

  /** A number below 100 as two zero-padded decimal digits, as `strftime`
      writes each of %d, %m, %H and %M. */
  function TwoDigits(n: nat): (r: string)
    requires n < 100
    ensures |r| == 2 && IsDigit(r[0]) && IsDigit(r[1])
    ensures 10 * DigitValue(r[0]) + DigitValue(r[1]) == n
  {
    [('0' as int + n / 10) as char, ('0' as int + n % 10) as char]
  }

  /** `strftime("%d%m")`. */
  function DateStamp(c: Clock): (r: string)
    requires c.Valid()
    ensures |r| == 4
  {
    TwoDigits(c.day) + TwoDigits(c.month)
  }

  /** `strftime("%H%M")`. */
  function TimeStamp(c: Clock): (r: string)
    requires c.Valid()
    ensures |r| == 4
  {
    TwoDigits(c.hour) + TwoDigits(c.minute)
  }

  /** `make_password_recovery_code(id)`, with `first` and `second` the two
      separate clock readings (for the date stamp and the time stamp). */
  function MakeRecoveryCode(id: string, first: Clock, second: Clock): (r: Result<string, char>)
    requires first.Valid() && second.Valid()
    ensures r.Ok? <==> forall i :: 0 <= i < |id| ==> IsDigit(id[i])
    ensures r.Ok? ==> |r.value| == |id| + 8
    ensures r.Ok? ==> r.value[..4] == DateStamp(first) && r.value[|id| + 4..] == TimeStamp(second)
    ensures r.Ok? ==> forall i :: 0 <= i < |id| ==> IsLetterFor(r.value[4 + i], id[i])
    ensures r.Err? ==> r == Letters(id)
  {
    match Letters(id)
    case Ok(letters) =>
      var code := DateStamp(first) + letters + TimeStamp(second);
      assert forall i :: 0 <= i < |id| ==> code[4 + i] == letters[i];
      Ok(code)
    case Err(key) => Err(key)
  }

  /** The fields a recovery code carries. */
  datatype CodeFields = CodeFields(day: nat, month: nat, id: string, hour: nat, minute: nat)

  /** The value of two decimal digits. */
  function ReadTwoDigits(s: string): (r: Option<nat>)
    requires |s| == 2
    ensures r.Some? ==> r.value < 100
  {
    if IsDigit(s[0]) && IsDigit(s[1]) then Some(10 * DigitValue(s[0]) + DigitValue(s[1])) else None
  }

  /** Reads a recovery code back into its date, id and time. */
  function ParseRecoveryCode(code: string): Option<CodeFields>
  {
    if |code| < 8 then None
    else
      var n := |code|;
      match (ReadTwoDigits(code[0..2]), ReadTwoDigits(code[2..4]), Digits(code[4..n - 4]),
             ReadTwoDigits(code[n - 4..n - 2]), ReadTwoDigits(code[n - 2..]))
      case (Some(day), Some(month), Some(id), Some(hour), Some(minute)) =>
        Some(CodeFields(day, month, id, hour, minute))
      case _ => None
  }

  /** `ReadTwoDigits` inverts `TwoDigits`. */
  lemma ReadTwoDigitsInverse(n: nat)
    requires n < 100
    ensures ReadTwoDigits(TwoDigits(n)) == Some(n)
  {
  }

  /** A recovery code determines the id and both clock readings it was made
      from: parsing it gives them back. */
  lemma RecoveryCodeRoundTrip(id: string, first: Clock, second: Clock)
    requires first.Valid() && second.Valid()
    requires MakeRecoveryCode(id, first, second).Ok?
    ensures ParseRecoveryCode(MakeRecoveryCode(id, first, second).value)
            == Some(CodeFields(first.day, first.month, id, second.hour, second.minute))
  {
    var code := MakeRecoveryCode(id, first, second).value;
    var letters := Letters(id).value;
    var n := |code|;
    assert code == DateStamp(first) + letters + TimeStamp(second);
    assert code[0..2] == TwoDigits(first.day);
    assert code[2..4] == TwoDigits(first.month);
    assert code[4..n - 4] == letters;
    assert code[n - 4..n - 2] == TwoDigits(second.hour);
    assert code[n - 2..] == TwoDigits(second.minute);
    ReadTwoDigitsInverse(first.day);
    ReadTwoDigitsInverse(first.month);
    ReadTwoDigitsInverse(second.hour);
    ReadTwoDigitsInverse(second.minute);
    LettersDigitsInverse(id, letters);
  }
}
