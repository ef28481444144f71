/** The grid descriptor parser `read_grid` (src/main.rs:23-28): a text
    "<a>x<b>" becomes the pair (a, b) of u32 values. The text is split on the
    literal 'x'; only the first two fields are looked at, each must be what
    Rust's `u32` parser accepts, and every failure is fatal. */
module GridText {
  import opened Results

  const MaxU32: nat := 0xFFFF_FFFF
  const Separator: char := 'x'

  // ---------------------------------------------------------------------
  // str::split on one character

  /** The fields of `s` between occurrences of `sep`, as `str::split` yields
      them; there is always at least one (possibly empty) field. */
  function Split(s: string, sep: char): (fields: seq<string>)
    ensures |fields| >= 1
    decreases |s|
  {
    if s == [] then [[]]
    else
      var rest := Split(s[1..], sep);
      if s[0] == sep then [[]] + rest else [[s[0]] + rest[0]] + rest[1..]
  }

  /** The fields glued back together with the separator between them. */
  function Join(fields: seq<string>, sep: char): string
    requires |fields| >= 1
    decreases |fields|
  {
    if |fields| == 1 then fields[0] else fields[0] + [sep] + Join(fields[1..], sep)
  }

  /** Splitting loses nothing: joining the fields gives the text back. */
  lemma {:induction false} JoinSplit(s: string, sep: char)
    ensures Join(Split(s, sep), sep) == s
    decreases |s|
  {
    if s != [] {
      var rest := Split(s[1..], sep);
      JoinSplit(s[1..], sep);
      if s[0] == sep {
        assert Split(s, sep)[1..] == rest;
      } else {
        JoinCons(s[0], rest, sep);
      }
    }
  }

  /** Putting a character in front of the first field puts it in front of the joined text. */
  lemma JoinCons(c: char, fields: seq<string>, sep: char)
    requires |fields| >= 1
    ensures Join([[c] + fields[0]] + fields[1..], sep) == [c] + Join(fields, sep)
  {
    var consed := [[c] + fields[0]] + fields[1..];
    if |fields| > 1 {
      assert consed[1..] == fields[1..];
      calc {
        Join(consed, sep);
        ([c] + fields[0]) + [sep] + Join(fields[1..], sep);
        [c] + (fields[0] + [sep] + Join(fields[1..], sep));
      }
    }
  }

  /** There is one more field than there are separators in the text. */
  lemma {:induction false} SplitCount(s: string, sep: char)
    ensures |Split(s, sep)| == multiset(s)[sep] + 1
    decreases |s|
  {
    if s != [] {
      SplitCount(s[1..], sep);
      assert s == [s[0]] + s[1..];
    }
  }

  /** No field contains the separator. */
  lemma {:induction false} SplitFieldsFree(s: string, sep: char, i: nat)
    requires i < |Split(s, sep)|
    ensures sep !in Split(s, sep)[i]
    decreases |s|
  {
    if s != [] {
      var rest := Split(s[1..], sep);
      if s[0] == sep {
        if i > 0 { SplitFieldsFree(s[1..], sep, i - 1); }
      } else if i == 0 {
        SplitFieldsFree(s[1..], sep, 0);
      } else {
        SplitFieldsFree(s[1..], sep, i);
      }
    }
  }

  /** A text without the separator is a single field. */
  lemma {:induction false} SplitSingle(a: string, sep: char)
    requires sep !in a
    ensures Split(a, sep) == [a]
    decreases |a|
  {
    if a != [] {
      SplitSingle(a[1..], sep);
      assert [a[0]] + a[1..] == a;
    }
  }

  /** A separator-free prefix followed by the separator is the first field. */
  lemma {:induction false} SplitPrefix(a: string, sep: char, b: string)
    requires sep !in a
    ensures Split(a + [sep] + b, sep) == [a] + Split(b, sep)
    decreases |a|
  {
    var s := a + [sep] + b;
    if a == [] {
      assert s[1..] == b;
    } else {
      assert s[1..] == a[1..] + [sep] + b;
      SplitPrefix(a[1..], sep, b);
      assert [a[0]] + a[1..] == a;
    }
  }

  /** Splitting undoes joining, as long as no field contains the separator. */
  lemma {:induction false} SplitJoin(fields: seq<string>, sep: char)
    requires |fields| >= 1
    requires forall i :: 0 <= i < |fields| ==> sep !in fields[i]
    ensures Split(Join(fields, sep), sep) == fields
    decreases |fields|
  {
    if |fields| == 1 {
      SplitSingle(fields[0], sep);
    } else {
      SplitJoin(fields[1..], sep);
      SplitPrefix(fields[0], sep, Join(fields[1..], sep));
    }
  }

  // ---------------------------------------------------------------------
  // Decimal numerals and u32::from_str

  predicate IsDigit(c: char) {
    '0' <= c <= '9'
  }

  predicate AllDigits(s: string) {
    forall i :: 0 <= i < |s| ==> IsDigit(s[i])
  }

  function DigitValue(c: char): (v: nat)
    requires IsDigit(c)
    ensures v < 10
  {
    c as int - '0' as int
  }

  function DigitChar(d: nat): (c: char)
    requires d < 10
    ensures IsDigit(c) && DigitValue(c) == d
  {
    ('0' as int + d) as char
  }

  /** The value of a numeral, most significant digit first; leading zeros are allowed. */
  function DecimalValue(s: string): nat
    requires AllDigits(s)
    decreases |s|
  {
    if s == [] then 0 else DecimalValue(s[..|s| - 1]) * 10 + DigitValue(s[|s| - 1])
  }

  /** The shortest numeral of `n`, as `u32::to_string` prints it. */
  function Decimal(n: nat): (s: string)
    ensures |s| >= 1 && AllDigits(s) && DecimalValue(s) == n
    decreases n
  {
    if n < 10 then [DigitChar(n)]
    else
      var s := Decimal(n / 10) + [DigitChar(n % 10)];
      assert s[..|s| - 1] == Decimal(n / 10);
      s
  }

  /** The numeral `u32::from_str` reads: its one optional leading '+' removed. */
  function Unsigned(f: string): string {
    if |f| > 0 && f[0] == '+' then f[1..] else f
  }

  /** What `u32::from_str` accepts: an optional '+', then at least one ASCII
      digit, with a value that fits in 32 bits. */
  predicate IsU32Text(f: string) {
    var d := Unsigned(f);
    |d| > 0 && AllDigits(d) && DecimalValue(d) <= MaxU32
  }

  /** `field.parse::<u32>()`, with `None` for its `Err`. */
  function ParseU32(f: string): (r: Option<nat>)
    ensures r.Some? ==> r.value <= MaxU32
  {
    if IsU32Text(f) then Some(DecimalValue(Unsigned(f))) else None
  }

  /** The parser reads back what the printer writes, with or without a '+'. */
  lemma ParseDecimal(n: nat)
    requires n <= MaxU32
    ensures ParseU32(Decimal(n)) == Some(n)
    ensures ParseU32(['+'] + Decimal(n)) == Some(n)
  {
    assert (['+'] + Decimal(n))[1..] == Decimal(n);
  }

  /** The parser refuses the empty field, a bare sign, a second sign or a
      minus, any other non-digit, and numbers of 2^32 or more. */
  lemma ParseRejects(f: string, i: nat)
    requires i < |f|
    requires !IsDigit(f[i]) && (i > 0 || f[0] != '+' || |f| == 1)
    ensures ParseU32(f) == None
    ensures ParseU32([]) == None
  {
    if i > 0 && f[0] == '+' {
      assert Unsigned(f)[i - 1] == f[i];
    }
  }

  lemma ParseRejectsOverflow(n: nat)
    requires n > MaxU32
    ensures ParseU32(Decimal(n)) == None
    ensures ParseU32(['+'] + Decimal(n)) == None
  {
    assert (['+'] + Decimal(n))[1..] == Decimal(n);
  }

  // ---------------------------------------------------------------------
  // read_grid

  /** Which of the two `unwrap()` calls of lines 25-26 fails, and on what. */
  datatype GridError =
    | InvalidFirst(field: string)   // the first field is not a u32
    | MissingSecond                 // there is no 'x', so no second field
    | InvalidSecond(field: string)  // the second field is not a u32

  /** `read_grid`: the first field is parsed before the second is asked for,
      so a bad first field is reported even when there is no separator. */
  function ReadGrid(text: string): (r: Result<(nat, nat), GridError>)
    ensures r.Success? ==> r.value.0 <= MaxU32 && r.value.1 <= MaxU32
  {
    var fields := Split(text, Separator);
    match ParseU32(fields[0])
    case None => Failure(InvalidFirst(fields[0]))
    case Some(a) =>
      if |fields| < 2 then Failure(MissingSecond)
      else
        match ParseU32(fields[1])
        case None => Failure(InvalidSecond(fields[1]))
        case Some(b) => Success((a, b))
  }

  /** A text with a separator is two separator-free fields and a rest that is
      empty or starts with another separator; the rest is ignored, and the
      result depends on the two fields alone. */
  lemma ReadGridOfFields(f0: string, f1: string, rest: string)
    requires Separator !in f0 && Separator !in f1
    requires rest == [] || rest[0] == Separator
    ensures ReadGrid(f0 + [Separator] + f1 + rest) ==
      match ParseU32(f0)
      case None => Failure(InvalidFirst(f0))
      case Some(a) =>
        match ParseU32(f1)
        case None => Failure(InvalidSecond(f1))
        case Some(b) => Success((a, b))
  {
    var text := f0 + [Separator] + f1 + rest;
    assert text == f0 + [Separator] + (f1 + rest);
    SplitPrefix(f0, Separator, f1 + rest);
    if rest == [] {
      assert f1 + rest == f1;
      SplitSingle(f1, Separator);
    } else {
      assert f1 + rest == f1 + [Separator] + rest[1..];
      SplitPrefix(f1, Separator, rest[1..]);
    }
  }

  /** A text without a separator always fails: on its only field if that is
      not a u32, and otherwise for want of a second field. */
  lemma ReadGridOneField(f: string)
    requires Separator !in f
    ensures ReadGrid(f) == if ParseU32(f).None? then Failure(InvalidFirst(f)) else Failure(MissingSecond)
  {
    SplitSingle(f, Separator);
  }

  /** Printing two u32 values as "<a>x<b>" and reading them back gives the
      pair, with or without further 'x'-separated fields after them. */
  lemma ReadGridRoundTrip(a: nat, b: nat, rest: string)
    requires a <= MaxU32 && b <= MaxU32
    requires rest == [] || rest[0] == Separator
    ensures ReadGrid(Decimal(a) + [Separator] + Decimal(b) + rest) == Success((a, b))
  {
    DigitsFree(Decimal(a));
    DigitsFree(Decimal(b));
    ParseDecimal(a);
    ParseDecimal(b);
    ReadGridOfFields(Decimal(a), Decimal(b), rest);
  }

  /** A first number of 2^32 or more is refused before the second is looked at. */
  lemma ReadGridOverflow(a: nat, rest: string)
    requires a > MaxU32
    requires rest == [] || rest[0] == Separator
    ensures ReadGrid(Decimal(a) + rest) == Failure(InvalidFirst(Decimal(a)))
  {
    DigitsFree(Decimal(a));
    ParseRejectsOverflow(a);
    ReadGridBadFirst(Decimal(a), rest);
  }

  /** A first field that is not a u32 is reported whatever follows it. */
  lemma ReadGridBadFirst(f: string, rest: string)
    requires Separator !in f && ParseU32(f).None?
    requires rest == [] || rest[0] == Separator
    ensures ReadGrid(f + rest) == Failure(InvalidFirst(f))
  {
    if rest == [] {
      assert f + rest == f;
      SplitSingle(f, Separator);
    } else {
      assert f + rest == f + [Separator] + rest[1..];
      SplitPrefix(f, Separator, rest[1..]);
    }
  }

  lemma DigitsFree(s: string)
    requires AllDigits(s)
    ensures Separator !in s
  {
  }
}
