/** server/utils/validators.py: Brazilian CPF and CNPJ check digits, the phone
    number rule, and the coordinate and positive-number form validators. A form
    validator either accepts its field or rejects it with a message. */
module Validators {
  import opened Seqs
  import opened Text

  datatype Verdict = Accepted | Rejected(message: string)

  /** `re.sub(r"[^0-9]", "", s)`: the ASCII digits of `s`, in order. */
  function Digits(s: string): (r: string)
    ensures AllDigits(r)
  {
    FilterAllKeepAll(IsDigitChar, s);
    Filter(IsDigitChar, s)
  }

  /** Stripping is idempotent and leaves a digit string alone, so a formatted
      number and its bare digits are treated alike. */
  lemma DigitsSpec(s: string)
    ensures Digits(Digits(s)) == Digits(s)
    ensures AllDigits(s) ==> Digits(s) == s
    ensures IsSubsequence(Digits(s), s)
  {
    FilterKeepsAll(IsDigitChar, Digits(s));
    if AllDigits(s) {
      FilterKeepsAll(IsDigitChar, s);
    }
    FilterIsSubsequence(IsDigitChar, s);
  }

  /** Stripping works character by character: the empty string strips to
      itself, a single character survives exactly when it is a digit, and
      stripping a concatenation concatenates the stripped parts. Together these
      fix `Digits` on every string. A character is kept exactly when it is a
      digit of the input. */
  lemma DigitsPerCharacter(a: string, b: string, c: char)
    ensures Digits([]) == []
    ensures Digits([c]) == if IsDigitChar(c) then [c] else []
    ensures Digits(a + b) == Digits(a) + Digits(b)
    ensures c in Digits(a) <==> c in a && IsDigitChar(c)
  {
    FilterSnoc(IsDigitChar, [], c);
    assert [] + [c] == [c];
    FilterConcat(IsDigitChar, a, b);
    FilterMember(IsDigitChar, a, c);
  }

  /** `s == s[0] * len(s)`. */
  predicate AllSame(s: string)
  {
    forall i :: 0 <= i < |s| ==> s[i] == s[0]
  }

  /** `sum(int(d[i]) * w[i] for i in range(len(w)))`. */
  function WeightedSum(d: string, w: seq<int>): int
    requires |w| <= |d| && AllDigits(d)
    decreases |w|
  {
    if w == [] then 0
    else WeightedSum(d, w[..|w| - 1]) + DigitValue(d[|w| - 1]) * w[|w| - 1]
  }

  /** The check digit of a weighted sum: 0 when the remainder modulo 11 is
      below 2, else 11 minus the remainder. It is always a single digit. */
  function CheckDigit(soma: int): (digit: int)
    ensures 0 <= digit <= 9
    ensures digit == 0 || digit == 11 - soma % 11
    ensures digit == 0 <==> soma % 11 < 2
  {
    var resto := soma % 11;
    if resto < 2 then 0 else 11 - resto
  }

  /** The weights of CPF check digit k (k = 1, 2): 9 + k down to 2. */
  function CpfWeights(n: nat): (w: seq<int>)
    ensures |w| == n
  {
    seq(n, i requires 0 <= i < n => n + 1 - i)
  }

  const CnpjWeights1: seq<int> := [5, 4, 3, 2, 9, 8, 7, 6, 5, 4, 3, 2]
  const CnpjWeights2: seq<int> := [6, 5, 4, 3, 2, 9, 8, 7, 6, 5, 4, 3, 2]

  /** Both check digits of `d` match: the digit after the span of `w1`
      is the check digit for `w1`, the one after `w2`'s span the one for `w2`. */
  predicate ChecksHold(d: string, w1: seq<int>, w2: seq<int>)
    requires AllDigits(d) && |w1| < |d| && |w2| < |d|
  {
    && DigitValue(d[|w1|]) == CheckDigit(WeightedSum(d, w1))
    && DigitValue(d[|w2|]) == CheckDigit(WeightedSum(d, w2))
  }

  /** `validate_cpf`: 11 digits, not all equal, both check digits right. */
  function ValidateCpf(cpf: string): bool
  {
    var d := Digits(cpf);
    |d| == 11 && !AllSame(d) && ChecksHold(d, CpfWeights(9), CpfWeights(10))
  }

  /** `validate_cnpj`: 14 digits, not all equal, both check digits right. */
  function ValidateCnpj(cnpj: string): bool
  {
    var d := Digits(cnpj);
    |d| == 14 && !AllSame(d) && ChecksHold(d, CnpjWeights1, CnpjWeights2)
  }

  /** Completes a base number with its two check digits, computed by the same
      weights the validator uses. */
  function WithCheckDigits(base: string, w1: seq<int>, w2: seq<int>): (r: string)
    requires AllDigits(base) && |w1| == |base| && |w2| == |base| + 1
    ensures |r| == |base| + 2 && AllDigits(r) && r[..|base|] == base
  {
    var d1 := DigitChar(CheckDigit(WeightedSum(base, w1)));
    var partial := base + [d1];
    var d2 := DigitChar(CheckDigit(WeightedSum(partial, w2)));
    partial + [d2]
  }

  /** A weighted sum only reads the digits under its weights. */
  lemma {:induction false} WeightedSumPrefix(a: string, b: string, w: seq<int>)
    requires |w| <= |a| && |w| <= |b| && AllDigits(a) && AllDigits(b)
    requires a[..|w|] == b[..|w|]
    ensures WeightedSum(a, w) == WeightedSum(b, w)
    decreases |w|
  {
    if w != [] {
      var w' := w[..|w| - 1];
      assert a[..|w'|] == a[..|w|][..|w'|] && b[..|w'|] == b[..|w|][..|w'|];
      WeightedSumPrefix(a, b, w');
      assert a[|w| - 1] == a[..|w|][|w| - 1] && b[|w| - 1] == b[..|w|][|w| - 1];
    }
  }

  /** A digit string satisfies both checks exactly when it is its own first
      digits completed with check digits. */
  lemma ChecksHoldIffCompleted(d: string, w1: seq<int>, w2: seq<int>)
    requires AllDigits(d) && |d| == |w1| + 2 && |w2| == |w1| + 1
    ensures AllDigits(d[..|w1|])
    ensures ChecksHold(d, w1, w2) <==> d == WithCheckDigits(d[..|w1|], w1, w2)
  {
    var base := d[..|w1|];
    assert AllDigits(base) by {
      forall i | 0 <= i < |base| ensures IsDigitChar(base[i]) { assert base[i] == d[i]; }
    }
    var r := WithCheckDigits(base, w1, w2);
    WeightedSumPrefix(d, base, w1);
    var partial := r[..|w1| + 1];
    assert partial == base + [r[|w1|]];
    if ChecksHold(d, w1, w2) {
      assert r[|w1|] == d[|w1|];
      assert partial == d[..|w2|];
      WeightedSumPrefix(d, partial, w2);
      assert d == d[..|w2|] + [d[|w2|]];
    }
    if d == r {
      assert d[..|w2|] == partial;
      WeightedSumPrefix(d, partial, w2);
    }
  }

  /** Round trip for CPF: a string is a valid CPF exactly when its digits are
      eleven, not all equal, and equal to their first nine completed with the
      computed check digits. */
  lemma CpfRoundTrip(cpf: string)
    ensures ValidateCpf(cpf) <==>
      var d := Digits(cpf);
      && |d| == 11 && !AllSame(d)
      && AllDigits(d[..9]) && d == WithCheckDigits(d[..9], CpfWeights(9), CpfWeights(10))
  {
    var d := Digits(cpf);
    if |d| == 11 {
      ChecksHoldIffCompleted(d, CpfWeights(9), CpfWeights(10));
    }
  }

  /** Every nine-digit base that is not one repeated digit becomes a valid CPF
      once its check digits are appended; formatting does not matter. */
  lemma CpfFromBase(base: string)
    requires |base| == 9 && AllDigits(base) && !AllSame(base)
    ensures ValidateCpf(WithCheckDigits(base, CpfWeights(9), CpfWeights(10)))
  {
    var d := WithCheckDigits(base, CpfWeights(9), CpfWeights(10));
    DigitsSpec(d);
    assert d[..9] == base;
    ChecksHoldIffCompleted(d, CpfWeights(9), CpfWeights(10));
  }

  /** Round trip for CNPJ, as for CPF with fourteen digits. */
  lemma CnpjRoundTrip(cnpj: string)
    ensures ValidateCnpj(cnpj) <==>
      var d := Digits(cnpj);
      && |d| == 14 && !AllSame(d)
      && AllDigits(d[..12]) && d == WithCheckDigits(d[..12], CnpjWeights1, CnpjWeights2)
  {
    var d := Digits(cnpj);
    if |d| == 14 {
      ChecksHoldIffCompleted(d, CnpjWeights1, CnpjWeights2);
    }
  }

  lemma CnpjFromBase(base: string)
    requires |base| == 12 && AllDigits(base) && !AllSame(base)
    ensures ValidateCnpj(WithCheckDigits(base, CnpjWeights1, CnpjWeights2))
  {
    var d := WithCheckDigits(base, CnpjWeights1, CnpjWeights2);
    DigitsSpec(d);
    assert d[..12] == base;
    ChecksHoldIffCompleted(d, CnpjWeights1, CnpjWeights2);
  }

  /** Both validators strip formatting first: a number and its bare digits
      get the same answer. */
  lemma FormattingIgnored(s: string)
    ensures ValidateCpf(s) == ValidateCpf(Digits(s))
    ensures ValidateCnpj(s) == ValidateCnpj(Digits(s))
  {
    DigitsSpec(s);
  }

  /** `if not message: message = default`: an absent or empty message falls
      back to the validator's default. */
  function MessageOr(message: Option<string>, default: string): string
  {
    if message.Some? && message.value != "" then message.value else default
  }

  /** `field.data or ""`. */
  function FieldText(data: Option<string>): string
  {
    if data.Some? then data.value else ""
  }

  /** The `CPF_CNPJ` form validator. */
  function CpfCnpj(data: Option<string>, message: Option<string>): Verdict
  {
    var d := Digits(FieldText(data));
    var msg := MessageOr(message, "CPF ou CNPJ inválido");
    if |d| == 11 then (if ValidateCpf(d) then Accepted else Rejected(msg))
    else if |d| == 14 then (if ValidateCnpj(d) then Accepted else Rejected(msg))
    else Rejected("CPF deve ter 11 dígitos ou CNPJ 14 dígitos")
  }

  /** Eleven digits are judged as a CPF, fourteen as a CNPJ, any other count
      is rejected for its length. */
  lemma CpfCnpjSpec(data: Option<string>, message: Option<string>)
    ensures var d := Digits(FieldText(data));
      && (CpfCnpj(data, message) == Accepted <==>
            (|d| == 11 && ValidateCpf(FieldText(data))) || (|d| == 14 && ValidateCnpj(FieldText(data))))
      && (|d| != 11 && |d| != 14 ==>
            CpfCnpj(data, message) == Rejected("CPF deve ter 11 dígitos ou CNPJ 14 dígitos"))
  {
    FormattingIgnored(FieldText(data));
  }

  /** The area code: the number formed by the first two digits. */
  function Ddd(t: string): (ddd: int)
    requires |t| >= 2 && AllDigits(t)
    ensures 0 <= ddd <= 99
  {
    10 * DigitValue(t[0]) + DigitValue(t[1])
  }

  /** The `TelefoneBR` form validator. */
  function TelefoneBR(data: Option<string>, message: Option<string>): Verdict
  {
    var t := Digits(FieldText(data));
    if |t| != 10 && |t| != 11 then
      Rejected(MessageOr(message, "Telefone inválido. Use formato: (11) 98765-4321"))
    else if Ddd(t) < 11 || Ddd(t) > 99 then Rejected("DDD inválido")
    else if |t| == 11 && t[2] != '9' then Rejected("Celular deve começar com 9")
    else Accepted
  }

  /** A phone number is accepted exactly when it has 10 or 11 digits, its area
      code is at least 11, and an 11-digit (mobile) number continues with 9. */
  lemma TelefoneBRSpec(data: Option<string>, message: Option<string>)
    ensures var t := Digits(FieldText(data));
      TelefoneBR(data, message) == Accepted <==>
        && (|t| == 10 || |t| == 11)
        && !(t[0] == '0' || (t[0] == '1' && t[1] == '0'))
        && (|t| == 11 ==> t[2] == '9')
  {
  }

  /** A float-valued form validator as the code intends it: an unreadable value
      is rejected as such, a value outside the range with the configured message. */
  function RangeCheck(data: Option<real>, inRange: real -> bool, message: string, unreadable: string): Verdict
  {
    if data.None? then Rejected(unreadable)
    else if !inRange(data.value) then Rejected(message)
    else Accepted
  }

  /** The same validator as written: the out-of-range rejection is raised
      inside the `try` whose `except (TypeError, ValueError)` catches it
      (WTForms' ValidationError is a ValueError), so it is re-raised with the
      "unreadable" message instead of the configured one. */
  function RangeCheckAsWritten(data: Option<real>, inRange: real -> bool, message: string, unreadable: string): Verdict
  {
    if data.None? then Rejected(unreadable)
    else if !inRange(data.value) then Rejected(unreadable)
    else Accepted
  }

  function InLatitudeRange(x: real): bool { -90.0 <= x <= 90.0 }
  function InLongitudeRange(x: real): bool { -180.0 <= x <= 180.0 }
  function IsPositive(x: real): bool { x > 0.0 }

  function Latitude(data: Option<real>, message: Option<string>): Verdict
  {
    RangeCheck(data, InLatitudeRange, MessageOr(message, "Latitude deve estar entre -90 e 90"), "Latitude inválida")
  }

  function Longitude(data: Option<real>, message: Option<string>): Verdict
  {
    RangeCheck(data, InLongitudeRange, MessageOr(message, "Longitude deve estar entre -180 e 180"), "Longitude inválida")
  }

  function PositiveNumber(data: Option<real>, message: Option<string>): Verdict
  {
    RangeCheck(data, IsPositive, MessageOr(message, "Valor deve ser maior que zero"), "Valor numérico inválido")
  }

  /** Latitude accepts exactly [-90, 90], longitude exactly [-180, 180], the
      positive-number validator exactly the values above zero; each rejects a
      readable value outside its range with its configured message. */
  lemma RangeValidatorsSpec(data: Option<real>, message: Option<string>)
    ensures Latitude(data, message) == Accepted <==> data.Some? && -90.0 <= data.value <= 90.0
    ensures Longitude(data, message) == Accepted <==> data.Some? && -180.0 <= data.value <= 180.0
    ensures PositiveNumber(data, message) == Accepted <==> data.Some? && data.value > 0.0
    ensures data.Some? && !(-90.0 <= data.value <= 90.0) ==>
      Latitude(data, message) == Rejected(MessageOr(message, "Latitude deve estar entre -90 e 90"))
    ensures data.None? ==> Latitude(data, message) == Rejected("Latitude inválida")
  {
  }

  /** As written and as intended accept the same values; they differ only in
      the message for a readable value out of range: 91 is rejected with
      "Latitude inválida" although the configured message is the default
      "Latitude deve estar entre -90 e 90". */
  lemma RangeMessageSwallowed(data: Option<real>, inRange: real -> bool, message: string, unreadable: string)
    ensures (RangeCheckAsWritten(data, inRange, message, unreadable) == Accepted) ==
            (RangeCheck(data, inRange, message, unreadable) == Accepted)
    ensures RangeCheckAsWritten(Some(91.0), InLatitudeRange, "Latitude deve estar entre -90 e 90", "Latitude inválida")
            == Rejected("Latitude inválida")
    ensures Latitude(Some(91.0), None) == Rejected("Latitude deve estar entre -90 e 90")
  {
  }
}
