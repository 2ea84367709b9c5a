/** The class-validator constraints the request DTOs declare, as predicates
    over a JSON body. A body is a map from keys to JSON values; a key that is
    missing is `undefined`. `@IsOptional()` skips every other check on a field
    that is `undefined` or `null`; the other decorators are checked together. */
module Validation {
  import opened Domain

  datatype Value = Null | Bool(b: bool) | Num(n: real) | Str(s: string) | Structured

  type Payload = map<string, Value>

  function Field(p: Payload, key: string): Option<Value> {
    if key in p then Some(p[key]) else None
  }

  // ---- regular expressions, matched against the whole string (`^...$`) ----

  datatype Regex =
    | Char(c: char)
    | Class(ranges: seq<(char, char)>)
    | Then(first: Regex, rest: Regex)
    | Either(left: Regex, right: Regex)
    | Times(body: Regex, n: nat)

  predicate InRanges(ranges: seq<(char, char)>, c: char) {
    exists k :: 0 <= k < |ranges| && ranges[k].0 <= c <= ranges[k].1
  }

  predicate FullMatch(r: Regex, s: string)
    decreases r, 0
  {
    match r
    case Char(c) => s == [c]
    case Class(ranges) => |s| == 1 && InRanges(ranges, s[0])
    case Then(a, b) => exists i :: 0 <= i <= |s| && FullMatch(a, s[..i]) && FullMatch(b, s[i..])
    case Either(a, b) => FullMatch(a, s) || FullMatch(b, s)
    case Times(a, n) => Repeats(a, n, s)
  }

  /** `s` splits into `n` consecutive matches of `a` (the `{n}` quantifier). */
  predicate Repeats(a: Regex, n: nat, s: string)
    decreases a, n
  {
    if n == 0 then s == []
    else exists i :: 0 <= i <= |s| && FullMatch(a, s[..i]) && Repeats(a, n - 1, s[i..])
  }

  const HexRanges: seq<(char, char)> := [('A', 'F'), ('a', 'f'), ('0', '9')]

  /** `[A-Fa-f0-9]` */
  const HexDigit: Regex := Class(HexRanges)

  /** `^#([A-Fa-f0-9]{6}|[A-Fa-f0-9]{3})$` */
  const ColorPattern: Regex := Then(Char('#'), Either(Times(HexDigit, 6), Times(HexDigit, 3)))

  /** `\d` (ASCII digits: the pattern has no `u` flag) */
  const DigitRanges: seq<(char, char)> := [('0', '9')]

  const Digit: Regex := Class(DigitRanges)

  /** `^\d{4}-\d{2}-\d{2}$` */
  const DatePattern: Regex :=
    Then(Times(Digit, 4), Then(Char('-'), Then(Times(Digit, 2), Then(Char('-'), Times(Digit, 2)))))

  predicate IsHexChar(c: char) {
    'A' <= c <= 'F' || 'a' <= c <= 'f' || '0' <= c <= '9'
  }

  predicate IsDigitChar(c: char) {
    '0' <= c <= '9'
  }

  /** `#RGB` or `#RRGGBB`, hex digits in either case. */
  predicate IsHexColor(s: string) {
    (|s| == 4 || |s| == 7) && s[0] == '#' && forall i :: 1 <= i < |s| ==> IsHexChar(s[i])
  }

  /** Four digits, a dash, two digits, a dash, two digits; no calendar check. */
  predicate IsDateShape(s: string) {
    |s| == 10 && DigitsAt(s, 0, 4) && s[4] == '-' && DigitsAt(s, 5, 7) && s[7] == '-' && DigitsAt(s, 8, 10)
  }

  /** `s[from..to]` is all digits. */
  predicate DigitsAt(s: string, from: nat, to: nat)
    requires from <= to <= |s|
  {
    forall i :: from <= i < to ==> IsDigitChar(s[i])
  }

  // ---- what the patterns mean ----

  lemma DigitsAtSlices(s: string, k: nat, from: nat, to: nat)
    requires k <= |s| && from <= to
    ensures to <= |s| - k ==> (DigitsAt(s[k..], from, to) <==> DigitsAt(s, from + k, to + k))
    ensures to <= k ==> (DigitsAt(s[..k], from, to) <==> DigitsAt(s, from, to))
  {
    if to <= |s| - k {
      assert forall i :: from <= i < to ==> s[k..][i] == s[i + k];
      if DigitsAt(s, from + k, to + k) {
        forall i | from <= i < to ensures IsDigitChar(s[k..][i]) {
          assert s[k..][i] == s[i + k];
        }
      }
    }
    if to <= k {
      assert forall i :: from <= i < to ==> s[..k][i] == s[i];
    }
  }

  lemma HexRangesMean()
    ensures forall c :: InRanges(HexRanges, c) <==> IsHexChar(c)
  {
    forall c | IsHexChar(c) ensures InRanges(HexRanges, c) {
      if 'A' <= c <= 'F' {
        assert HexRanges[0].0 <= c <= HexRanges[0].1;
      } else if 'a' <= c <= 'f' {
        assert HexRanges[1].0 <= c <= HexRanges[1].1;
      } else {
        assert HexRanges[2].0 <= c <= HexRanges[2].1;
      }
    }
  }

  lemma DigitRangesMean()
    ensures forall c :: InRanges(DigitRanges, c) <==> IsDigitChar(c)
  {
    forall c | IsDigitChar(c) ensures InRanges(DigitRanges, c) {
      assert DigitRanges[0].0 <= c <= DigitRanges[0].1;
    }
  }

  /** A single-character class repeated `n` times matches exactly the strings
      of length `n` whose every character is in the class. */
  lemma {:induction false} RepeatsClass(ranges: seq<(char, char)>, n: nat, s: string)
    ensures Repeats(Class(ranges), n, s) <==> |s| == n && forall i :: 0 <= i < |s| ==> InRanges(ranges, s[i])
  {
    if n > 0 {
      if Repeats(Class(ranges), n, s) {
        var i :| 0 <= i <= |s| && FullMatch(Class(ranges), s[..i]) && Repeats(Class(ranges), n - 1, s[i..]);
        assert i == 1;
        RepeatsClass(ranges, n - 1, s[1..]);
        forall j | 0 <= j < |s| ensures InRanges(ranges, s[j]) {
          if j == 0 {
            assert s[..1][0] == s[0];
          } else {
            assert s[1..][j - 1] == s[j];
          }
        }
      }
      if |s| == n && forall i :: 0 <= i < |s| ==> InRanges(ranges, s[i]) {
        RepeatsClass(ranges, n - 1, s[1..]);
        assert forall j :: 0 <= j < |s[1..]| ==> s[1..][j] == s[j + 1];
        assert s[..1][0] == s[0];
        assert FullMatch(Class(ranges), s[..1]);
      }
    }
  }

  /** When every match of `a` has length `len`, `a` followed by `b` splits at `len`. */
  lemma ThenAtFixedLength(a: Regex, b: Regex, len: nat, s: string)
    requires forall u :: FullMatch(a, u) ==> |u| == len
    ensures FullMatch(Then(a, b), s) <==> len <= |s| && FullMatch(a, s[..len]) && FullMatch(b, s[len..])
  {
    if FullMatch(Then(a, b), s) {
      var i :| 0 <= i <= |s| && FullMatch(a, s[..i]) && FullMatch(b, s[i..]);
      assert |s[..i]| == len;
    }
  }

  predicate HexRun(s: string) {
    forall i :: 0 <= i < |s| ==> IsHexChar(s[i])
  }

  lemma HexTimes(n: nat, s: string)
    ensures FullMatch(Times(HexDigit, n), s) <==> |s| == n && HexRun(s)
  {
    RepeatsClass(HexRanges, n, s);
    HexRangesMean();
  }

  lemma DigitTimes(n: nat, s: string)
    ensures FullMatch(Times(Digit, n), s) <==> |s| == n && DigitsAt(s, 0, n)
  {
    RepeatsClass(DigitRanges, n, s);
    DigitRangesMean();
  }

  lemma CharLength(c: char)
    ensures forall u :: FullMatch(Char(c), u) ==> |u| == 1
  {
  }

  lemma DigitTimesLength(n: nat)
    ensures forall u :: FullMatch(Times(Digit, n), u) ==> |u| == n
  {
    forall u | FullMatch(Times(Digit, n), u) ensures |u| == n {
      DigitTimes(n, u);
    }
  }

  /** The colour pattern accepts exactly `#RGB` and `#RRGGBB`. */
  lemma ColorPatternMeans(s: string)
    ensures FullMatch(ColorPattern, s) <==> IsHexColor(s)
  {
    CharLength('#');
    ThenAtFixedLength(Char('#'), Either(Times(HexDigit, 6), Times(HexDigit, 3)), 1, s);
    if |s| >= 1 {
      var tail := s[1..];
      HexTimes(6, tail);
      HexTimes(3, tail);
      assert s[..1] == [s[0]];
      assert forall i :: 0 <= i < |tail| ==> tail[i] == s[i + 1];
      assert HexRun(tail) <==> forall i :: 1 <= i < |s| ==> IsHexChar(s[i]) by {
        if forall i :: 1 <= i < |s| ==> IsHexChar(s[i]) {
          forall i | 0 <= i < |tail| ensures IsHexChar(tail[i]) {
            assert tail[i] == s[i + 1];
          }
        }
      }
    }
  }

  /** `-\d{2}` */
  lemma DashTwoDigits(u: string)
    ensures FullMatch(Then(Char('-'), Times(Digit, 2)), u) <==> |u| == 3 && u[0] == '-' && DigitsAt(u, 1, 3)
  {
    CharLength('-');
    ThenAtFixedLength(Char('-'), Times(Digit, 2), 1, u);
    if |u| >= 1 {
      DigitTimes(2, u[1..]);
      assert u[..1] == [u[0]];
      if |u| == 3 {
        DigitsAtSlices(u, 1, 0, 2);
      }
    }
  }

  /** `\d{2}-\d{2}` */
  lemma MonthDay(u: string)
    ensures FullMatch(Then(Times(Digit, 2), Then(Char('-'), Times(Digit, 2))), u) <==>
      |u| == 5 && DigitsAt(u, 0, 2) && u[2] == '-' && DigitsAt(u, 3, 5)
  {
    DigitTimesLength(2);
    ThenAtFixedLength(Times(Digit, 2), Then(Char('-'), Times(Digit, 2)), 2, u);
    if |u| >= 2 {
      DigitTimes(2, u[..2]);
      DashTwoDigits(u[2..]);
      DigitsAtSlices(u, 2, 0, 2);
      if |u| == 5 {
        DigitsAtSlices(u, 2, 1, 3);
      }
    }
  }

  /** `-\d{2}-\d{2}` */
  lemma DashMonthDay(u: string)
    ensures FullMatch(Then(Char('-'), Then(Times(Digit, 2), Then(Char('-'), Times(Digit, 2)))), u) <==>
      |u| == 6 && u[0] == '-' && DigitsAt(u, 1, 3) && u[3] == '-' && DigitsAt(u, 4, 6)
  {
    CharLength('-');
    ThenAtFixedLength(Char('-'), Then(Times(Digit, 2), Then(Char('-'), Times(Digit, 2))), 1, u);
    if |u| >= 1 {
      MonthDay(u[1..]);
      assert u[..1] == [u[0]];
      if |u| == 6 {
        DigitsAtSlices(u, 1, 0, 2);
        DigitsAtSlices(u, 1, 3, 5);
      }
    }
  }

  /** `\d{4}` followed by `-\d{2}-\d{2}`. */
  lemma DateSplit(s: string)
    ensures FullMatch(DatePattern, s) <==>
      |s| >= 4 && DigitsAt(s, 0, 4) && FullMatch(Then(Char('-'), Then(Times(Digit, 2), Then(Char('-'), Times(Digit, 2)))), s[4..])
  {
    DigitTimesLength(4);
    ThenAtFixedLength(Times(Digit, 4), Then(Char('-'), Then(Times(Digit, 2), Then(Char('-'), Times(Digit, 2)))), 4, s);
    if |s| >= 4 {
      DigitTimes(4, s[..4]);
      DigitsAtSlices(s, 4, 0, 4);
    }
  }

  /** The date pattern accepts exactly the `YYYY-MM-DD` digit shape. */
  lemma DatePatternMeans(s: string)
    ensures FullMatch(DatePattern, s) <==> IsDateShape(s)
  {
    DateSplit(s);
    if |s| >= 4 {
      DashMonthDay(s[4..]);
      if |s| == 10 {
        DigitsAtSlices(s, 4, 1, 3);
        DigitsAtSlices(s, 4, 4, 6);
        assert s[4..][0] == s[4] && s[4..][3] == s[7];
      }
    }
  }

  lemma ShortColorAccepted()
    ensures FullMatch(ColorPattern, "#abc")
  {
    var s := "#abc";
    assert IsHexColor(s) by {
      assert s[1] == 'a' && s[2] == 'b' && s[3] == 'c';
    }
    ColorPatternMeans(s);
  }

  lemma LongColorAccepted()
    ensures FullMatch(ColorPattern, "#A1B2C3")
  {
    var s := "#A1B2C3";
    assert IsHexColor(s) by {
      assert s[1] == 'A' && s[2] == '1' && s[3] == 'B' && s[4] == '2' && s[5] == 'C' && s[6] == '3';
    }
    ColorPatternMeans(s);
  }

  lemma ColorsRejected()
    ensures !FullMatch(ColorPattern, "#abcd") && !FullMatch(ColorPattern, "abc") && !FullMatch(ColorPattern, "#GGG")
  {
    ColorPatternMeans("#abcd");
    ColorPatternMeans("abc");
    ColorPatternMeans("#GGG");
    assert !IsHexChar("#GGG"[1]);
  }

  /** The date check is purely syntactic: month 13, day 45 pass. */
  lemma DateShapeIsSyntactic()
    ensures FullMatch(DatePattern, "2024-13-45")
    ensures !FullMatch(DatePattern, "2024-1-05") && !FullMatch(DatePattern, "24-01-05")
  {
    DatePatternMeans("2024-13-45");
    DatePatternMeans("2024-1-05");
    DatePatternMeans("24-01-05");
    assert IsDateShape("2024-13-45");
  }

  // ---- the decorators ----

  /** `@IsOptional()`: the field is `undefined` or `null`. */
  predicate Skipped(f: Option<Value>) {
    f.None? || f.value.Null?
  }

  predicate IsString(f: Option<Value>) {
    f.Some? && f.value.Str?
  }

  /** `@IsNotEmpty()`: not `''`, `null` or `undefined`. */
  predicate IsNotEmpty(f: Option<Value>) {
    f.Some? && f.value != Null && f.value != Str("")
  }

  predicate MaxLength(f: Option<Value>, max: nat) {
    IsString(f) && |f.value.s| <= max
  }

  predicate MatchesPattern(f: Option<Value>, r: Regex) {
    IsString(f) && FullMatch(r, f.value.s)
  }

  /** `@IsNumber()`: a JSON number (never NaN or infinite here). */
  predicate IsNumber(f: Option<Value>) {
    f.Some? && f.value.Num?
  }

  predicate Min(f: Option<Value>, min: real) {
    IsNumber(f) && f.value.n >= min
  }

  predicate IsInt(f: Option<Value>) {
    IsNumber(f) && f.value.n == f.value.n.Floor as real
  }

  /** `@IsEnum(TransactionType)`: one of the enum's values. */
  predicate IsTransactionType(f: Option<Value>) {
    f == Some(Str("income")) || f == Some(Str("expense"))
  }

  const MinAmount: real := 0.01

  const MaxNameLength: nat := 50

  // ---- the DTOs ----

  predicate ValidCreateCategory(p: Payload) {
    var name, color := Field(p, "name"), Field(p, "color");
    && IsString(name) && IsNotEmpty(name) && MaxLength(name, MaxNameLength)
    && (Skipped(color) || (IsString(color) && MatchesPattern(color, ColorPattern)))
  }

  predicate ValidUpdateCategory(p: Payload) {
    var name, color := Field(p, "name"), Field(p, "color");
    && (Skipped(name) || (IsString(name) && IsNotEmpty(name) && MaxLength(name, MaxNameLength)))
    && (Skipped(color) || (IsString(color) && MatchesPattern(color, ColorPattern)))
  }

  predicate ValidCreateTransaction(p: Payload) {
    var amount, description, date := Field(p, "amount"), Field(p, "description"), Field(p, "date");
    var txType, notes, categoryId := Field(p, "type"), Field(p, "notes"), Field(p, "categoryId");
    && IsNumber(amount) && Min(amount, MinAmount) && IsNotEmpty(amount)
    && IsString(description) && IsNotEmpty(description)
    && IsString(date) && MatchesPattern(date, DatePattern) && IsNotEmpty(date)
    && IsTransactionType(txType)
    && (Skipped(notes) || IsString(notes))
    && (Skipped(categoryId) || IsInt(categoryId))
  }

  predicate ValidUpdateTransaction(p: Payload) {
    var amount, description, date := Field(p, "amount"), Field(p, "description"), Field(p, "date");
    var txType, notes, categoryId := Field(p, "type"), Field(p, "notes"), Field(p, "categoryId");
    && (Skipped(amount) || (IsNumber(amount) && Min(amount, MinAmount)))
    && (Skipped(description) || IsString(description))
    && (Skipped(date) || (IsString(date) && MatchesPattern(date, DatePattern)))
    && (Skipped(txType) || IsTransactionType(txType))
    && (Skipped(notes) || IsString(notes))
    && (Skipped(categoryId) || IsInt(categoryId))
  }

  // ---- what the DTOs accept ----

  /** A create-category body: a name of 1 to 50 characters and, when not
      absent or null, a `#RGB` / `#RRGGBB` colour. */
  lemma CreateCategoryMeans(p: Payload)
    ensures ValidCreateCategory(p) <==>
      && "name" in p && p["name"].Str? && 1 <= |p["name"].s| <= 50
      && ("color" in p && p["color"] != Null ==> p["color"].Str? && IsHexColor(p["color"].s))
  {
    if "color" in p && p["color"].Str? {
      ColorPatternMeans(p["color"].s);
    }
  }

  /** An update-category body: each field may be absent or null; a name that
      is sent is 1 to 50 characters, a colour that is sent is `#RGB` / `#RRGGBB`. */
  lemma UpdateCategoryMeans(p: Payload)
    ensures ValidUpdateCategory(p) <==>
      && ("name" in p && p["name"] != Null ==> p["name"].Str? && 1 <= |p["name"].s| <= 50)
      && ("color" in p && p["color"] != Null ==> p["color"].Str? && IsHexColor(p["color"].s))
  {
    if "color" in p && p["color"].Str? {
      ColorPatternMeans(p["color"].s);
    }
  }

  lemma RequiredAmountMeans(f: Option<Value>)
    ensures IsNumber(f) && Min(f, MinAmount) && IsNotEmpty(f) <==> f.Some? && f.value.Num? && f.value.n >= 0.01
  {
  }

  lemma RequiredDateMeans(f: Option<Value>)
    ensures IsString(f) && MatchesPattern(f, DatePattern) && IsNotEmpty(f) <==> f.Some? && f.value.Str? && IsDateShape(f.value.s)
  {
    if f.Some? && f.value.Str? {
      DatePatternMeans(f.value.s);
    }
  }

  lemma OptionalIntMeans(f: Option<Value>)
    ensures Skipped(f) || IsInt(f) <==> (f.Some? && f.value != Null ==> f.value.Num? && f.value.n == f.value.n.Floor as real)
  {
  }

  /** A create-transaction body: an amount of at least 0.01, a non-empty
      description, a `YYYY-MM-DD`-shaped date, a known type, optional string
      notes and an optional integer category id. */
  lemma CreateTransactionMeans(p: Payload)
    ensures ValidCreateTransaction(p) <==>
      && "amount" in p && p["amount"].Num? && p["amount"].n >= 0.01
      && "description" in p && p["description"].Str? && p["description"].s != ""
      && "date" in p && p["date"].Str? && IsDateShape(p["date"].s)
      && "type" in p && p["type"] in {Str("income"), Str("expense")}
      && ("notes" in p && p["notes"] != Null ==> p["notes"].Str?)
      && ("categoryId" in p && p["categoryId"] != Null ==> p["categoryId"].Num? && p["categoryId"].n == p["categoryId"].n.Floor as real)
  {
    RequiredAmountMeans(Field(p, "amount"));
    RequiredDateMeans(Field(p, "date"));
    OptionalIntMeans(Field(p, "categoryId"));
  }

  /** An update-transaction body: every field may be absent or null; a sent
      field meets the create constraints, except that the description may be empty. */
  lemma UpdateTransactionMeans(p: Payload)
    ensures ValidUpdateTransaction(p) <==>
      && ("amount" in p && p["amount"] != Null ==> p["amount"].Num? && p["amount"].n >= 0.01)
      && ("description" in p && p["description"] != Null ==> p["description"].Str?)
      && ("date" in p && p["date"] != Null ==> p["date"].Str? && IsDateShape(p["date"].s))
      && ("type" in p && p["type"] != Null ==> p["type"] in {Str("income"), Str("expense")})
      && ("notes" in p && p["notes"] != Null ==> p["notes"].Str?)
      && ("categoryId" in p && p["categoryId"] != Null ==> p["categoryId"].Num? && p["categoryId"].n == p["categoryId"].n.Floor as real)
  {
    if "date" in p && p["date"].Str? {
      DatePatternMeans(p["date"].s);
    }
  }

  /** Every body a create accepts, the matching update accepts too; an empty body is a valid update. */
  lemma UpdatesAcceptCreateBodies(p: Payload)
    ensures ValidCreateCategory(p) ==> ValidUpdateCategory(p)
    ensures ValidCreateTransaction(p) ==> ValidUpdateTransaction(p)
    ensures ValidUpdateCategory(map[]) && ValidUpdateTransaction(map[])
  {
  }

  /** The constraints are independent of any key the DTO does not declare
      (the pipe has no whitelist, so extra keys neither help nor hurt). */
  lemma UndeclaredKeysIgnored(p: Payload, key: string, v: Value)
    requires key !in {"name", "color", "amount", "description", "date", "type", "notes", "categoryId"}
    ensures ValidCreateCategory(p[key := v]) == ValidCreateCategory(p)
    ensures ValidUpdateCategory(p[key := v]) == ValidUpdateCategory(p)
    ensures ValidCreateTransaction(p[key := v]) == ValidCreateTransaction(p)
    ensures ValidUpdateTransaction(p[key := v]) == ValidUpdateTransaction(p)
  {
    assert forall k :: k != key ==> Field(p[key := v], k) == Field(p, k);
  }
}
