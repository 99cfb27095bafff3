/**
 The text a user sends to report checked floors, and how the newest tracker reads it:
 `string.IsNullOrWhiteSpace`, `string.Trim`, `string.Split` on one character,
 `int.TryParse` on decimal integers, and the three input shapes of `AddCheckedFloor`
 (a range `a-b`, a comma list, a single number).
 */
module FloorInput {
  import opened Wrappers

  /** The range of a 32-bit `int`; `int.TryParse` fails on anything outside it. */
  const Int32Min: int := -0x8000_0000
  const Int32Max: int := 0x7FFF_FFFF

  /**
   `Char.IsWhiteSpace`, the white space `string.Trim` and `string.IsNullOrWhiteSpace`
   skip: tab to carriage return, space, U+0085, U+00A0, U+1680, U+2000 to U+200A,
   U+2028, U+2029, U+202F, U+205F and U+3000.
   */
  predicate IsWhiteSpace(c: char) {
    || IsNumberWhiteSpace(c)
    || c == '\U{85}' || c == '\U{A0}' || c == '\U{1680}'
    || '\U{2000}' <= c <= '\U{200A}'
    || c == '\U{2028}' || c == '\U{2029}' || c == '\U{202F}' || c == '\U{205F}' || c == '\U{3000}'
  }

  /** The white space `int.TryParse` allows around a number: tab to carriage return, and space. */
  predicate IsNumberWhiteSpace(c: char) {
    c == ' ' || '\t' <= c <= '\r'
  }

  /** Which white space is trimmed: that of `string.Trim`, or that of `int.TryParse`. */
  datatype Spacing = TextSpacing | NumberSpacing

  predicate Skips(sp: Spacing, c: char) {
    match sp
    case TextSpacing => IsWhiteSpace(c)
    case NumberSpacing => IsNumberWhiteSpace(c)
  }

  /** `s` consists of white space of the kind `sp` only. */
  predicate IsPadding(sp: Spacing, s: string) {
    forall i :: 0 <= i < |s| ==> Skips(sp, s[i])
  }

  /** `string.IsNullOrWhiteSpace` of a non-null string. */
  predicate IsBlank(s: string) {
    IsPadding(TextSpacing, s)
  }

  /** `s` without its leading white space of the kind `sp`. */
  function TrimStart(sp: Spacing, s: string): string {
    if s != [] && Skips(sp, s[0]) then TrimStart(sp, s[1..]) else s
  }

  /** `s` without its trailing white space of the kind `sp`. */
  function TrimEnd(sp: Spacing, s: string): string {
    if s != [] && Skips(sp, s[|s| - 1]) then TrimEnd(sp, s[..|s| - 1]) else s
  }

  /** `s` without its leading and trailing white space of the kind `sp`. */
  function TrimBy(sp: Spacing, s: string): string {
    TrimEnd(sp, TrimStart(sp, s))
  }

  /**
   `s.Trim()`: empty exactly when `s` is blank, and otherwise beginning and ending with a
   character that is not white space.
   */
  function Trim(s: string): (r: string)
    ensures |r| <= |s|
    ensures r == [] <==> IsBlank(s)
    ensures r != [] ==> !IsWhiteSpace(r[0]) && !IsWhiteSpace(r[|r| - 1])
  {
    var u := TrimStart(TextSpacing, s);
    TrimStartDrops(TextSpacing, s);
    TrimEndDrops(TextSpacing, u);
    assert IsBlank(s) ==> IsPadding(TextSpacing, u);
    assert TrimEnd(TextSpacing, u) == [] ==> IsBlank(s) by {
      if TrimEnd(TextSpacing, u) == [] {
        forall i | 0 <= i < |s|
          ensures Skips(TextSpacing, s[i])
        {
          assert s[i] == s[..|s| - |u|][i];
        }
      }
    }
    TrimBy(TextSpacing, s)
  }

  /** `TrimStart` drops a run of white space from the front and stops at other text. */
  lemma {:induction false} TrimStartDrops(sp: Spacing, s: string)
    ensures var r := TrimStart(sp, s);
      && |r| <= |s| && r == s[|s| - |r|..] && IsPadding(sp, s[..|s| - |r|])
      && (r != [] ==> !Skips(sp, r[0]))
  {
    if s != [] && Skips(sp, s[0]) {
      TrimStartDrops(sp, s[1..]);
      var r := TrimStart(sp, s[1..]);
      assert s[1..][|s| - 1 - |r|..] == s[|s| - |r|..];
      forall i | 0 <= i < |s| - |r|
        ensures Skips(sp, s[i])
      {
        if i > 0 {
          assert s[i] == s[1..][..|s| - 1 - |r|][i - 1];
        }
      }
    }
  }

  /** `TrimEnd` drops a run of white space from the back and stops at other text. */
  lemma {:induction false} TrimEndDrops(sp: Spacing, s: string)
    ensures var r := TrimEnd(sp, s);
      && |r| <= |s| && r == s[..|r|] && IsPadding(sp, s[|r|..])
      && (r != [] ==> !Skips(sp, r[|r| - 1]))
  {
    if s != [] && Skips(sp, s[|s| - 1]) {
      var init := s[..|s| - 1];
      TrimEndDrops(sp, init);
      var r := TrimEnd(sp, init);
      assert init[..|r|] == s[..|r|];
      forall i | |r| <= i < |s|
        ensures Skips(sp, s[i])
      {
        if i < |s| - 1 {
          assert s[i] == init[|r|..][i - |r|];
        }
      }
    }
  }

  lemma {:induction false} TrimStartRemovesPadding(sp: Spacing, pre: string, u: string)
    requires IsPadding(sp, pre)
    requires u != [] && !Skips(sp, u[0])
    ensures TrimStart(sp, pre + u) == u
  {
    if pre != [] {
      assert (pre + u)[1..] == pre[1..] + u;
      TrimStartRemovesPadding(sp, pre[1..], u);
    }
  }

  lemma {:induction false} TrimEndRemovesPadding(sp: Spacing, u: string, post: string)
    requires IsPadding(sp, post)
    requires u != [] && !Skips(sp, u[|u| - 1])
    ensures TrimEnd(sp, u + post) == u
  {
    if post != [] {
      var p := post[..|post| - 1];
      assert (u + post)[..|u + post| - 1] == u + p;
      TrimEndRemovesPadding(sp, u, p);
    }
  }

  /** Trimming removes exactly the white padding around a text that neither starts nor ends with white space. */
  lemma TrimRemovesPadding(sp: Spacing, pre: string, t: string, post: string)
    requires IsPadding(sp, pre) && IsPadding(sp, post)
    requires t != [] && !Skips(sp, t[0]) && !Skips(sp, t[|t| - 1])
    ensures TrimBy(sp, pre + t + post) == t
  {
    assert pre + t + post == pre + (t + post);
    TrimStartRemovesPadding(sp, pre, t + post);
    TrimEndRemovesPadding(sp, t, post);
  }

  predicate IsDigit(c: char) {
    '0' <= c <= '9'
  }

  predicate AllDigits(s: string) {
    forall i :: 0 <= i < |s| ==> IsDigit(s[i])
  }

  function DigitValue(c: char): (d: nat)
    requires IsDigit(c)
    ensures d < 10
  {
    c as int - '0' as int
  }

  /** The digit character for `d`. */
  function DigitChar(d: nat): (c: char)
    requires d < 10
    ensures IsDigit(c) && DigitValue(c) == d
  {
    ('0' as int + d) as char
  }

  /** The value of a string of decimal digits, most significant first. */
  function DigitsValue(ds: string): nat
    requires AllDigits(ds)
  {
    if ds == [] then 0
    else 10 * DigitsValue(ds[..|ds| - 1]) + DigitValue(ds[|ds| - 1])
  }

  /** A non-empty run of decimal digits and its value. */
  function ParseDigits(ds: string): Option<int> {
    if ds != [] && AllDigits(ds) then Some(DigitsValue(ds)) else None
  }

  /** An optional sign followed by digits. */
  function ParseSigned(t: string): Option<int> {
    if t != [] && t[0] == '-' then
      match ParseDigits(t[1..])
      case Some(m) => Some(-m)
      case None => None
    else if t != [] && t[0] == '+' then
      match ParseDigits(t[1..])
      case Some(m) => Some(m)
      case None => None
    else
      match ParseDigits(t)
      case Some(m) => Some(m)
      case None => None
  }

  /**
   `int.TryParse(s, out v)` with the default number style: optional white space around an
   optional sign and at least one decimal digit, the value fitting in 32 bits.
   */
  function TryParseInt(s: string): (r: Option<int>)
    ensures r.Some? ==> Int32Min <= r.value <= Int32Max
  {
    var v := ParseSigned(TrimBy(NumberSpacing, s));
    if v.Some? && Int32Min <= v.value <= Int32Max then v else None
  }

  /** A text `ParseSigned` accepts, a sign and digits, holds no white space. */
  lemma SignedHasNoWhiteSpace(t: string)
    requires ParseSigned(t).Some?
    ensures forall i :: 0 <= i < |t| ==> !IsWhiteSpace(t[i])
  {
    if t[0] == '-' || t[0] == '+' {
      assert AllDigits(t[1..]);
      assert forall i :: 1 <= i < |t| ==> t[i] == t[1..][i - 1];
    } else {
      assert AllDigits(t);
    }
  }

  /**
   `int.TryParse` accepts only the white space of `IsNumberWhiteSpace` around a number:
   a text it accepts holds no other white space, such as the no-break space U+00A0 that
   `Trim` would remove.
   */
  lemma TryParseIntSkipsOnlyNumberWhiteSpace(s: string)
    requires TryParseInt(s).Some?
    ensures forall i :: 0 <= i < |s| ==> IsNumberWhiteSpace(s[i]) || !IsWhiteSpace(s[i])
  {
    var u := TrimStart(NumberSpacing, s);
    TrimStartDrops(NumberSpacing, s);
    var t := TrimEnd(NumberSpacing, u);
    TrimEndDrops(NumberSpacing, u);
    SignedHasNoWhiteSpace(t);
    var k := |s| - |u|;
    forall i | 0 <= i < |s|
      ensures IsNumberWhiteSpace(s[i]) || !IsWhiteSpace(s[i])
    {
      if i < k {
        assert s[i] == s[..k][i];
      } else if i < k + |t| {
        assert s[i] == u[i - k] == t[i - k];
      } else {
        assert s[i] == u[|t|..][i - k - |t|];
      }
    }
  }

  /** The decimal digits of `n`, without leading zeros. */
  function FormatNat(n: nat): (r: string)
    ensures r != [] && AllDigits(r) && DigitsValue(r) == n
  {
    if n < 10 then [DigitChar(n)]
    else
      var init := FormatNat(n / 10);
      var r := init + [DigitChar(n % 10)];
      assert r[..|r| - 1] == init;
      r
  }

  /** `n.ToString()`: the decimal form of `n`, with a minus sign when it is negative. */
  function Format(n: int): (r: string)
    ensures r != [] && !IsWhiteSpace(r[0]) && !IsWhiteSpace(r[|r| - 1])
    ensures n >= 0 ==> AllDigits(r)
    ensures forall i :: 0 <= i < |r| ==> IsDigit(r[i]) || r[i] == '-'
  {
    if n < 0 then "-" + FormatNat(-n) else FormatNat(n)
  }

  /** Parsing the decimal form of a 32-bit integer, padded with white space or not, gives it back. */
  lemma {:induction false} ParseFormatted(n: int, pre: string, post: string)
    requires Int32Min <= n <= Int32Max
    requires IsPadding(NumberSpacing, pre) && IsPadding(NumberSpacing, post)
    ensures TryParseInt(pre + Format(n) + post) == Some(n)
  {
    TrimRemovesPadding(NumberSpacing, pre, Format(n), post);
    var t := Format(n);
    if n < 0 {
      assert t[1..] == FormatNat(-n);
      assert ParseSigned(t) == Some(n);
    } else {
      assert t[0] != '-' && t[0] != '+';
      assert ParseSigned(t) == Some(n);
    }
  }

  /** `parts` joined by `sep`, the inverse of `Split`. */
  function Join(parts: seq<string>, sep: char): string
    requires |parts| >= 1
  {
    if |parts| == 1 then parts[0] else parts[0] + [sep] + Join(parts[1..], sep)
  }

  /** `s.Split(sep)`: the pieces between the separators, empty pieces included. */
  function Split(s: string, sep: char): (parts: seq<string>)
    ensures |parts| >= 1
    ensures forall i :: 0 <= i < |parts| ==> sep !in parts[i]
    ensures Join(parts, sep) == s
  {
    if s == [] then [[]]
    else
      var rest := Split(s[1..], sep);
      if s[0] == sep then
        assert ([[]] + rest)[1..] == rest;
        [[]] + rest
      else
        var parts := [[s[0]] + rest[0]] + rest[1..];
        assert |parts| > 1 ==> parts[1..] == rest[1..] && Join(rest, sep) == rest[0] + [sep] + Join(rest[1..], sep);
        assert s == [s[0]] + s[1..];
        parts
  }

  /** Splitting a text that starts with a piece free of the separator extends the first piece. */
  lemma {:induction false} SplitAfterPiece(t: string, rest: string, sep: char)
    requires sep !in t
    ensures Split(t + rest, sep) == [t + Split(rest, sep)[0]] + Split(rest, sep)[1..]
  {
    if t != [] {
      var r := Split(rest, sep);
      SplitAfterPiece(t[1..], rest, sep);
      assert t + rest == [t[0]] + (t[1..] + rest);
      SplitAtOther(t[0], t[1..] + rest, sep);
      assert [t[0]] + (t[1..] + r[0]) == t + r[0];
    } else {
      var r := Split(rest, sep);
      assert t + rest == rest && t + r[0] == r[0];
      assert r == [r[0]] + r[1..];
    }
  }

  /** A text that starts with another character than the separator extends its first piece by it. */
  lemma SplitAtOther(c: char, t: string, sep: char)
    requires c != sep
    ensures Split([c] + t, sep) == [[c] + Split(t, sep)[0]] + Split(t, sep)[1..]
  {
    var u := [c] + t;
    assert u[0] == c && u[1..] == t;
  }

  /** Splitting a joined text gives back the pieces that were joined, if none holds the separator. */
  lemma {:induction false} SplitJoin(parts: seq<string>, sep: char)
    requires |parts| >= 1
    requires forall i :: 0 <= i < |parts| ==> sep !in parts[i]
    ensures Split(Join(parts, sep), sep) == parts
  {
    if |parts| == 1 {
      SplitAfterPiece(parts[0], [], sep);
      assert parts[0] + [] == parts[0];
    } else {
      var tail := Join(parts[1..], sep);
      var rest := [sep] + tail;
      SplitJoin(parts[1..], sep);
      SplitAtSeparator(tail, sep);
      SplitBeforeSeparator(parts[0], rest, parts[1..], sep);
      assert Join(parts, sep) == parts[0] + rest;
      assert parts == [parts[0]] + parts[1..];
    }
  }

  /** A piece free of the separator, put before a text that starts with an empty piece, fills that piece. */
  lemma SplitBeforeSeparator(t: string, rest: string, after: seq<string>, sep: char)
    requires sep !in t
    requires Split(rest, sep) == [[]] + after
    ensures Split(t + rest, sep) == [t] + after
  {
    SplitAfterPiece(t, rest, sep);
    assert t + [] == t;
    assert ([[]] + after)[1..] == after;
  }

  /** A text that starts with the separator splits into an empty piece and the pieces after it. */
  lemma SplitAtSeparator(t: string, sep: char)
    ensures Split([sep] + t, sep) == [[]] + Split(t, sep)
  {
    var u := [sep] + t;
    assert u[0] == sep && u[1..] == t;
  }

  /** The three shapes of floor report `AddCheckedFloor` accepts, as parsed. */
  datatype FloorRequest =
    | FloorRange(start: int, end: int)
    | FloorList(floors: seq<int>)
    | SingleFloor(floor: int)

  /** Why `AddCheckedFloor` rejects its input; each one is an `ArgumentException` in the service. */
  datatype InputError =
    | EmptyInput           // blank input
    | InvalidRange         // a '-' but its first or last piece is not a number
    | UnrecognisedFloors   // a ',' list in which no piece is a number
    | InvalidFloor         // neither a range nor a list, and not a number

  /** The comma-list pieces that are numbers once trimmed, in order; the others are dropped. */
  function ParseTokens(tokens: seq<string>): (floors: seq<int>)
    ensures |floors| <= |tokens|
    ensures floors == [] <==> forall i :: 0 <= i < |tokens| ==> TryParseInt(Trim(tokens[i])).None?
  {
    if tokens == [] then []
    else
      var rest := ParseTokens(tokens[1..]);
      assert forall i :: 1 <= i < |tokens| ==> tokens[i] == tokens[1..][i - 1];
      match TryParseInt(Trim(tokens[0]))
      case Some(v) => [v] + rest
      case None => rest
  }

  /** A single piece yields its value if it is a number once trimmed, and nothing otherwise. */
  lemma ParseTokensOne(t: string)
    ensures TryParseInt(Trim(t)).Some? ==> ParseTokens([t]) == [TryParseInt(Trim(t)).value]
    ensures TryParseInt(Trim(t)).None? ==> ParseTokens([t]) == []
  {
    assert [t][1..] == [];
  }

  /** The floors of two runs of pieces are those of the first run followed by those of the second. */
  lemma {:induction false} ParseTokensAppend(a: seq<string>, b: seq<string>)
    ensures ParseTokens(a + b) == ParseTokens(a) + ParseTokens(b)
  {
    if a != [] {
      assert (a + b)[0] == a[0];
      assert (a + b)[1..] == a[1..] + b;
      ParseTokensAppend(a[1..], b);
    } else {
      assert a + b == b;
    }
  }

  /**
   The decision `AddCheckedFloor` takes on its input, in the order it takes it: blank input
   is an error; any '-' makes it a range of the first and last '-' pieces; else any ','
   makes it a list of the pieces that parse; else it must be a single number.
   */
  function Parse(input: string): (r: Result<FloorRequest, InputError>)
    ensures IsBlank(input) ==> r == Failure(EmptyInput)
    ensures r.Success? && r.value.FloorRange? ==> '-' in input
    ensures r.Success? && r.value.FloorList? ==> '-' !in input && ',' in input && r.value.floors != []
    ensures r.Success? && r.value.SingleFloor? ==> '-' !in input && ',' !in input
    ensures !IsBlank(input) && '-' in input ==> r == Failure(InvalidRange) || (r.Success? && r.value.FloorRange?)
    ensures !IsBlank(input) && '-' !in input && ',' in input ==>
      (r.Success? <==> ParseTokens(Split(input, ',')) != [])
      && (r.Success? ==> r.value == FloorList(ParseTokens(Split(input, ','))))
      && (r.Failure? ==> r.error == UnrecognisedFloors)
    ensures !IsBlank(input) && '-' !in input && ',' !in input ==>
      (r.Success? <==> TryParseInt(input).Some?)
      && (r.Success? ==> r.value == SingleFloor(TryParseInt(input).value))
      && (r.Failure? ==> r.error == InvalidFloor)
  {
    if IsBlank(input) then Failure(EmptyInput)
    else if '-' in input then ParseRange(input)
    else if ',' in input then ParseList(input)
    else ParseSingle(input)
  }

  /** The range branch: the first and the last of the '-' pieces must both be numbers. */
  function ParseRange(input: string): (r: Result<FloorRequest, InputError>)
    ensures r == Failure(InvalidRange) || (r.Success? && r.value.FloorRange?)
    ensures var pieces := Split(input, '-');
      && (r.Success? <==> |pieces| >= 2 && TryParseInt(pieces[0]).Some? && TryParseInt(pieces[|pieces| - 1]).Some?)
      && (r.Success? ==> r.value.start == TryParseInt(pieces[0]).value && r.value.end == TryParseInt(pieces[|pieces| - 1]).value)
  {
    var pieces := Split(input, '-');
    var first, last := TryParseInt(pieces[0]), TryParseInt(pieces[|pieces| - 1]);
    if |pieces| >= 2 && first.Some? && last.Some? then Success(FloorRange(first.value, last.value))
    else Failure(InvalidRange)
  }

  /** The list branch: the ',' pieces that are numbers once trimmed; an error if there is none. */
  function ParseList(input: string): (r: Result<FloorRequest, InputError>)
    ensures r == Failure(UnrecognisedFloors) || (r.Success? && r.value.FloorList? && r.value.floors != [])
    ensures r.Success? <==> exists i :: 0 <= i < |Split(input, ',')| && TryParseInt(Trim(Split(input, ',')[i])).Some?
    ensures r.Success? ==> r.value.floors == ParseTokens(Split(input, ','))
  {
    var floors := ParseTokens(Split(input, ','));
    if floors == [] then Failure(UnrecognisedFloors) else Success(FloorList(floors))
  }

  /** The last branch: the whole input, untrimmed, must be one number. */
  function ParseSingle(input: string): (r: Result<FloorRequest, InputError>)
    ensures r == Failure(InvalidFloor) || (r.Success? && r.value.SingleFloor?)
    ensures r.Success? <==> TryParseInt(input).Some?
    ensures r.Success? ==> r.value.floor == TryParseInt(input).value
  {
    match TryParseInt(input)
    case Some(floor) => Success(SingleFloor(floor))
    case None => Failure(InvalidFloor)
  }

  /** A text holds the separator exactly when it splits into two pieces or more. */
  lemma SplitCount(s: string, sep: char)
    ensures sep in s <==> |Split(s, sep)| >= 2
  {
    var parts := Split(s, sep);
    if |parts| >= 2 {
      JoinHoldsSeparator(parts, sep);
    }
  }

  /**
   Any text with a '-' is a range request: the first and the last of its '-' pieces are the
   bounds if both are numbers, and it is `InvalidRange` if either is not.
   */
  lemma ParseRangePieces(pieces: seq<string>)
    requires |pieces| >= 2
    requires forall i :: 0 <= i < |pieces| ==> '-' !in pieces[i]
    ensures var first, last := TryParseInt(pieces[0]), TryParseInt(pieces[|pieces| - 1]);
      Parse(Join(pieces, '-')) ==
        if first.Some? && last.Some? then Success(FloorRange(first.value, last.value))
        else Failure(InvalidRange)
  {
    var input := Join(pieces, '-');
    SplitJoin(pieces, '-');
    JoinHoldsSeparator(pieces, '-');
    DashMeansRange(input);
    RangeOfPieces(input, pieces);
  }

  /** The range branch on a text whose '-' pieces are `pieces`. */
  lemma RangeOfPieces(input: string, pieces: seq<string>)
    requires Split(input, '-') == pieces && |pieces| >= 2
    ensures var first, last := TryParseInt(pieces[0]), TryParseInt(pieces[|pieces| - 1]);
      ParseRange(input) ==
        if first.Some? && last.Some? then Success(FloorRange(first.value, last.value))
        else Failure(InvalidRange)
  {
  }

  /** A text with a '-' is never blank, so it takes the range branch. */
  lemma DashMeansRange(input: string)
    requires '-' in input
    ensures Parse(input) == ParseRange(input)
  {
    var k :| 0 <= k < |input| && input[k] == '-';
    assert !Skips(TextSpacing, input[k]);
  }

  /** A text with a ',' but no '-' is never blank, so it takes the list branch. */
  lemma CommaMeansList(input: string)
    requires '-' !in input && ',' in input
    ensures Parse(input) == ParseList(input)
  {
    var k :| 0 <= k < |input| && input[k] == ',';
    assert !Skips(TextSpacing, input[k]);
  }

  /**
   Any non-blank text without '-' or ',' is a single-floor request exactly when
   `int.TryParse` accepts the whole text, and `InvalidFloor` otherwise.
   */
  lemma ParseSingleIsTryParse(input: string)
    requires !IsBlank(input) && '-' !in input && ',' !in input
    ensures Parse(input).Success? <==> TryParseInt(input).Some?
    ensures Parse(input).Success? ==> Parse(input) == Success(SingleFloor(TryParseInt(input).value))
    ensures Parse(input).Failure? ==> Parse(input) == Failure(InvalidFloor)
  {
  }

  /**
   No report names a floor below 0: any '-' makes the text a range, and then neither
   bound can carry a sign, while a list or a single number holds no '-' at all.
   */
  lemma ParsedFloorsAreUnsigned(input: string)
    requires Parse(input).Success?
    ensures var q := Parse(input).value;
      && (q.FloorRange? ==> q.start >= 0 && q.end >= 0)
      && (q.FloorList? ==> forall i :: 0 <= i < |q.floors| ==> q.floors[i] >= 0)
      && (q.SingleFloor? ==> q.floor >= 0)
  {
    if '-' in input {
      var pieces := Split(input, '-');
      DashMeansRange(input);
      UnsignedValue(pieces[0]);
      UnsignedValue(pieces[|pieces| - 1]);
    } else if ',' in input {
      var pieces := Split(input, ',');
      CommaMeansList(input);
      forall i | 0 <= i < |pieces|
        ensures '-' !in pieces[i]
      {
        if '-' in pieces[i] {
          JoinHoldsPiece(pieces, ',', i, '-');
        }
      }
      UnsignedTokens(pieces);
    } else {
      UnsignedValue(input);
    }
  }

  /** A number `int.TryParse` reads from a text without '-' is not negative. */
  lemma UnsignedValue(s: string)
    requires '-' !in s
    ensures TryParseInt(s).Some? ==> TryParseInt(s).value >= 0
  {
    var t := TrimBy(NumberSpacing, s);
    TrimByAvoids(NumberSpacing, s, '-');
    assert t != [] ==> t[0] in t;
  }

  /** Every floor of a comma list whose pieces hold no '-' is not negative. */
  lemma {:induction false} UnsignedTokens(tokens: seq<string>)
    requires forall i :: 0 <= i < |tokens| ==> '-' !in tokens[i]
    ensures forall i :: 0 <= i < |ParseTokens(tokens)| ==> ParseTokens(tokens)[i] >= 0
  {
    if tokens != [] {
      UnsignedTokens(tokens[1..]);
      TrimByAvoids(TextSpacing, tokens[0], '-');
      UnsignedValue(Trim(tokens[0]));
    }
  }

  /** Trimming adds no character. */
  lemma TrimByAvoids(sp: Spacing, s: string, c: char)
    requires c !in s
    ensures c !in TrimBy(sp, s)
  {
    var u := TrimStart(sp, s);
    TrimStartDrops(sp, s);
    TrimEndDrops(sp, u);
    assert forall i :: 0 <= i < |u| ==> u[i] == s[|s| - |u| + i];
  }

  /** A character of one piece is a character of the join. */
  lemma {:induction false} JoinHoldsPiece(parts: seq<string>, sep: char, i: nat, c: char)
    requires i < |parts| && c in parts[i]
    ensures c in Join(parts, sep)
  {
    if i > 0 {
      JoinHoldsPiece(parts[1..], sep, i - 1, c);
    }
  }

  /** The report `-1` is not basement floor 1 but a range whose first bound is missing. */
  lemma ExampleNegativeFloor()
    ensures Parse("-1") == Failure(InvalidRange)
  {
    SplitAtSeparator("1", '-');
    assert "-1" == ['-'] + "1";
    DashMeansRange("-1");
    assert TryParseInt("") == None;
  }

  /** `string.Join(", ", floors)`, the list the confirmation of a comma list echoes. */
  function FloorsText(floors: seq<int>): string
    requires floors != []
  {
    Join(ListPieces(floors), ',')
  }

  /** The echoed list splits at its commas back into the pieces it was joined from. */
  lemma FloorsTextSplits(floors: seq<int>)
    requires floors != []
    ensures Split(FloorsText(floors), ',') == ListPieces(floors)
  {
    var pieces := ListPieces(floors);
    forall i | 0 <= i < |pieces|
      ensures ',' !in pieces[i]
    {
      assert pieces[i] == (if i == 0 then "" else " ") + Format(floors[i]);
    }
    SplitJoin(pieces, ',');
  }

  /** The pieces of `string.Join(", ", floors)` between its commas. */
  function ListPieces(floors: seq<int>): (pieces: seq<string>)
    ensures |pieces| == |floors|
    ensures forall i :: 0 <= i < |floors| ==> pieces[i] == (if i == 0 then "" else " ") + Format(floors[i])
  {
    seq(|floors|, i requires 0 <= i < |floors| => (if i == 0 then "" else " ") + Format(floors[i]))
  }

  /** Each piece that trims to the decimal form of a 32-bit floor parses to that floor. */
  lemma {:induction false} ParseFormattedTokens(tokens: seq<string>, floors: seq<int>)
    requires |tokens| == |floors|
    requires forall i :: 0 <= i < |floors| ==> Int32Min <= floors[i] <= Int32Max && Trim(tokens[i]) == Format(floors[i])
    ensures ParseTokens(tokens) == floors
  {
    if tokens != [] {
      ParseFormattedAlone(floors[0]);
      assert TryParseInt(Trim(tokens[0])) == Some(floors[0]);
      ParseFormattedTokens(tokens[1..], floors[1..]);
      assert floors == [floors[0]] + floors[1..];
    }
  }

  /**
   Range shape: the first and the last '-' pieces are the bounds and the pieces between
   them are ignored, whatever they hold; a descending range is accepted as it is.
   */
  lemma ParseRangeText(start: nat, middle: seq<string>, end: nat)
    requires start <= Int32Max && end <= Int32Max
    requires forall i :: 0 <= i < |middle| ==> '-' !in middle[i]
    ensures Parse(Join([Format(start)] + middle + [Format(end)], '-')) == Success(FloorRange(start, end))
  {
    var pieces := [Format(start)] + middle + [Format(end)];
    RangePiecesHaveNoDash(start, middle, end);
    ParseFormattedAlone(start);
    ParseFormattedAlone(end);
    ParseRangePieces(pieces);
  }

  lemma RangePiecesHaveNoDash(start: nat, middle: seq<string>, end: nat)
    requires forall i :: 0 <= i < |middle| ==> '-' !in middle[i]
    ensures var pieces := [Format(start)] + middle + [Format(end)];
      forall i :: 0 <= i < |pieces| ==> '-' !in pieces[i]
  {
    var pieces := [Format(start)] + middle + [Format(end)];
    forall i | 0 <= i < |pieces|
      ensures '-' !in pieces[i]
    {
      if 0 < i < |pieces| - 1 {
        assert pieces[i] == middle[i - 1];
      }
    }
  }

  /** The decimal form of a 32-bit integer parses back to it. */
  lemma ParseFormattedAlone(n: int)
    requires Int32Min <= n <= Int32Max
    ensures TryParseInt(Format(n)) == Some(n)
  {
    ParseFormatted(n, "", "");
    assert "" + Format(n) + "" == Format(n);
  }

  /** A join of two or more pieces holds the separator. */
  lemma {:induction false} JoinHoldsSeparator(parts: seq<string>, sep: char)
    requires |parts| >= 2
    ensures sep in Join(parts, sep)
  {
    assert Join(parts, sep)[|parts[0]|] == sep;
  }

  /** A join starts with its first piece. */
  lemma {:induction false} JoinStartsWithFirst(parts: seq<string>, sep: char)
    requires |parts| >= 1
    ensures Join(parts, sep)[..|parts[0]|] == parts[0]
  {
  }

  /**
   List shape: the text `string.Join(", ", floors)` of two or more non-negative 32-bit
   floors parses back to exactly those floors, in order.
   */
  lemma ParseListText(floors: seq<nat>)
    requires |floors| >= 2
    requires forall i :: 0 <= i < |floors| ==> floors[i] <= Int32Max
    ensures Parse(FloorsText(floors)) == Success(FloorList(floors))
  {
    var pieces := ListPieces(floors);
    var input := FloorsText(floors);
    forall i | 0 <= i < |floors|
      ensures Trim(pieces[i]) == Format(floors[i]) && ',' !in pieces[i] && '-' !in pieces[i]
    {
      var pad := if i == 0 then "" else " ";
      TrimRemovesPadding(TextSpacing, pad, Format(floors[i]), "");
      assert pieces[i] == pad + Format(floors[i]) + "";
    }
    SplitJoin(pieces, ',');
    ParseFormattedTokens(pieces, floors);
    JoinHoldsSeparator(pieces, ',');
    JoinAvoids(pieces, ',', '-');
    assert pieces[0] == Format(floors[0]);
    assert input[0] == Format(floors[0])[0] by { JoinStartsWithFirst(pieces, ','); }
    assert !IsBlank(input);
    assert ParseList(input) == Success(FloorList(floors));
  }

  /** A join holds a character other than the separator only if a piece does. */
  lemma {:induction false} JoinAvoids(parts: seq<string>, sep: char, c: char)
    requires |parts| >= 1 && c != sep
    requires forall i :: 0 <= i < |parts| ==> c !in parts[i]
    ensures c !in Join(parts, sep)
  {
    if |parts| > 1 {
      JoinAvoids(parts[1..], sep, c);
    }
  }

  /**
   Single shape: a non-negative 32-bit floor, padded or not with the white space
   `int.TryParse` allows, parses to itself.
   */
  lemma ParseSingleText(floor: nat, pre: string, post: string)
    requires floor <= Int32Max
    requires IsPadding(NumberSpacing, pre) && IsPadding(NumberSpacing, post)
    ensures Parse(pre + Format(floor) + post) == Success(SingleFloor(floor))
  {
    var input := pre + Format(floor) + post;
    ParseFormatted(floor, pre, post);
    assert forall i :: 0 <= i < |input| ==> IsNumberWhiteSpace(input[i]) || IsDigit(input[i]) by {
      forall i | 0 <= i < |input|
        ensures IsNumberWhiteSpace(input[i]) || IsDigit(input[i])
      {
        if i < |pre| {
          assert input[i] == pre[i];
        } else if i < |pre| + |Format(floor)| {
          assert input[i] == Format(floor)[i - |pre|];
        } else {
          assert input[i] == post[i - |pre| - |Format(floor)|];
        }
      }
    }
    assert input[|pre|] == Format(floor)[0];
  }

  /** The report `1-3` is the range from 1 to 3. */
  lemma ExampleRange()
    ensures Parse("1-3") == Success(FloorRange(1, 3))
  {
    assert Format(1) == "1" && Format(3) == "3";
    assert Join(["1", "3"], '-') == "1-3";
    ParseRangeText(1, [], 3);
  }

  /** The report `1, 2, 3` is the list of floors 1, 2 and 3. */
  lemma ExampleList()
    ensures Parse("1, 2, 3") == Success(FloorList([1, 2, 3]))
  {
    ExampleListText();
    ParseListText([1, 2, 3]);
  }

  /** `string.Join(", ", [1, 2, 3])` is `1, 2, 3`. */
  lemma ExampleListText()
    ensures FloorsText([1, 2, 3]) == "1, 2, 3"
  {
    ExampleListPieces();
    var tail := Join([" 2", " 3"], ',');
    assert tail == " 2" + [','] + " 3";
    assert Join(["1", " 2", " 3"], ',') == "1" + [','] + tail;
  }

  /** The pieces of `1, 2, 3` between its commas. */
  lemma ExampleListPieces()
    ensures ListPieces([1, 2, 3]) == ["1", " 2", " 3"]
  {
    assert Format(1) == "1" && Format(2) == "2" && Format(3) == "3";
    var pieces := ListPieces([1, 2, 3]);
    assert pieces[0] == "1" && pieces[1] == " 2" && pieces[2] == " 3";
  }

  /** In the report `1, a, 3` the piece that is not a number is dropped. */
  lemma ExampleListWithWord()
    ensures Parse("1, a, 3") == Success(FloorList([1, 3]))
  {
    ExampleListWithWordShape();
    ExampleListWithWordPieces();
    ExampleListWithWordTokens();
  }

  /** `1, a, 3` has a ',' and no '-', so it takes the list branch. */
  lemma ExampleListWithWordShape()
    ensures Parse("1, a, 3") == ParseList("1, a, 3")
  {
    assert '-' !in "1, a, 3" && "1, a, 3"[1] == ',';
    CommaMeansList("1, a, 3");
  }

  /** `1, a, 3` splits at its commas into `1`, ` a` and ` 3`. */
  lemma ExampleListWithWordPieces()
    ensures Split("1, a, 3", ',') == ["1", " a", " 3"]
  {
    var pieces := ["1", " a", " 3"];
    assert Join([" a", " 3"], ',') == " a" + [','] + " 3";
    assert Join(pieces, ',') == "1, a, 3";
    SplitJoin(pieces, ',');
  }

  /** The pieces `1`, ` a` and ` 3` yield the floors 1 and 3. */
  lemma ExampleListWithWordTokens()
    ensures ParseTokens(["1", " a", " 3"]) == [1, 3]
  {
    ExampleNumberPiece();
    ExampleWordPiece();
    ParseTokensOfThree("1", " a", " 3");
  }

  /** The pieces `1` and ` 3` are the floors 1 and 3. */
  lemma ExampleNumberPiece()
    ensures ParseTokens(["1"]) == [1] && ParseTokens([" 3"]) == [3]
  {
    DigitPiece("", 1);
    DigitPiece(" ", 3);
    assert "" + [DigitChar(1)] == "1" && " " + [DigitChar(3)] == " 3";
  }

  /** A piece that is one digit after white space is that digit's floor. */
  lemma DigitPiece(pad: string, d: nat)
    requires IsBlank(pad) && d < 10
    ensures ParseTokens([pad + [DigitChar(d)]]) == [d]
  {
    assert Format(d) == [DigitChar(d)];
    ParseFormattedAlone(d);
    PaddedToken(pad, [DigitChar(d)], Some(d));
  }

  /** The piece ` a` is not a number. */
  lemma ExampleWordPiece()
    ensures ParseTokens([" a"]) == []
  {
    assert TrimBy(NumberSpacing, "a") == "a";
    PaddedToken(" ", "a", None);
  }

  /** The floors of two pieces are those of each piece, in order. */
  lemma ParseTokensOfTwo(a: string, b: string)
    ensures ParseTokens([a, b]) == ParseTokens([a]) + ParseTokens([b])
  {
    ParseTokensAppend([a], [b]);
    assert [a] + [b] == [a, b];
  }

  /** The floors of three pieces are those of each piece, in order. */
  lemma ParseTokensOfThree(a: string, b: string, c: string)
    ensures ParseTokens([a, b, c]) == ParseTokens([a]) + ParseTokens([b]) + ParseTokens([c])
  {
    ParseTokensAppend([a], [b]);
    ParseTokensAppend([a, b], [c]);
    assert [a] + [b] == [a, b] && [a, b] + [c] == [a, b, c];
  }

  /** A piece that is `t` after white space yields what `int.TryParse` makes of `t`. */
  lemma PaddedToken(pad: string, t: string, v: Option<int>)
    requires IsBlank(pad) && t != [] && !IsWhiteSpace(t[0]) && !IsWhiteSpace(t[|t| - 1])
    requires TryParseInt(t) == v
    ensures ParseTokens([pad + t]) == if v.Some? then [v.value] else []
  {
    TrimRemovesPadding(TextSpacing, pad, t, "");
    assert pad + t + "" == pad + t;
    ParseTokensOne(pad + t);
  }

  /** The report `1-a` is a range whose end is not a number. */
  lemma ExampleBadRange()
    ensures Parse("1-a") == Failure(InvalidRange)
  {
    assert Join(["1", "a"], '-') == "1-a";
    ParseRangePieces(["1", "a"]);
    assert TryParseInt("a") == None;
  }

  /** The report `abc` is neither a range nor a list nor a number. */
  lemma ExampleBadFloor()
    ensures Parse("abc") == Failure(InvalidFloor)
  {
    assert TrimBy(NumberSpacing, "abc") == "abc";
    assert !AllDigits("abc");
    assert TryParseInt("abc") == None;
  }

  /**
   A no-break space (U+00A0) is white space to `string.IsNullOrWhiteSpace` and `Trim`
   but not to `int.TryParse`: alone it is empty input, before a single number it makes
   an invalid floor, and before a list piece it is trimmed away.
   */
  lemma ExampleNoBreakSpace()
    ensures Parse("\U{A0}") == Failure(EmptyInput)
    ensures Parse("\U{A0}5") == Failure(InvalidFloor)
    ensures ParseTokens(["\U{A0}5", " 6"]) == [5, 6]
  {
    assert IsBlank("\U{A0}");
    NoBreakSpaceBeforeNumber();
    NoBreakSpaceBeforePiece();
  }

  /** `\U{A0}5` is neither blank nor a number to `int.TryParse`. */
  lemma NoBreakSpaceBeforeNumber()
    ensures Parse("\U{A0}5") == Failure(InvalidFloor)
  {
    var input := "\U{A0}5";
    assert !IsBlank(input) by { assert !IsWhiteSpace(input[1]); }
    assert TrimBy(NumberSpacing, input) == input;
    assert !AllDigits(input);
    assert TryParseInt(input) == None;
    ParseSingleIsTryParse(input);
  }

  /** The list pieces `\U{A0}5` and ` 6` yield 5 and 6. */
  lemma NoBreakSpaceBeforePiece()
    ensures ParseTokens(["\U{A0}5", " 6"]) == [5, 6]
  {
    DigitPiece("\U{A0}", 5);
    DigitPiece(" ", 6);
    assert "\U{A0}" + [DigitChar(5)] == "\U{A0}5" && " " + [DigitChar(6)] == " 6";
    ParseTokensOfTwo("\U{A0}5", " 6");
  }
}
