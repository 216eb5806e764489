/** The string operations the controllers and the task form apply to names:
    PHP's `trim`, `strtoupper`, `empty` and `preg_split('/[\s,;]+/', ...)`,
    and JavaScript's `trim`, `toUpperCase`, `split(',')` and `parseInt`.
    Strings are sequences of code points; the PHP functions work on UTF-8
    bytes, but every character they treat specially is ASCII, so they act
    on code points the same way. */
module Text {
  import opened Wrappers
  import opened Seqs

  /** The characters PHP's `trim` strips by default: space, tab, line feed,
      carriage return, NUL and vertical tab. */
  predicate IsPhpSpace(c: char) {
    c == ' ' || c == '\t' || c == '\n' || c == '\r' || c == '\0' || c == '\U{000B}'
  }

  /** The white space and line terminators JavaScript's `trim` and
      `parseInt` skip. */
  predicate IsJsSpace(c: char) {
    || c == '\t' || c == '\n' || c == '\U{000B}' || c == '\U{000C}' || c == '\r' || c == ' '
    || c == '\U{00A0}' || c == '\U{1680}' || ('\U{2000}' <= c <= '\U{200A}')
    || c == '\U{2028}' || c == '\U{2029}' || c == '\U{202F}' || c == '\U{205F}'
    || c == '\U{3000}' || c == '\U{FEFF}'
  }

  /** The class `[\s,;]` of the pattern the web form's predecessor entries
      are split on (PCRE's `\s` without the `u` flag: space, tab, line feed,
      vertical tab, form feed, carriage return). */
  predicate IsListSeparator(c: char) {
    c == ' ' || c == '\t' || c == '\n' || c == '\U{000B}' || c == '\U{000C}' || c == '\r'
    || c == ',' || c == ';'
  }

  /** The number of `sp` characters `s` starts with. */
  function LeadingCount(s: string, sp: char -> bool): (n: nat)
    ensures n <= |s|
    ensures forall i :: 0 <= i < n ==> sp(s[i])
    ensures n == |s| || !sp(s[n])
  {
    if s != [] && sp(s[0]) then 1 + LeadingCount(s[1..], sp) else 0
  }

  /** The number of `sp` characters `s` ends with. */
  function TrailingCount(s: string, sp: char -> bool): (n: nat)
    ensures n <= |s|
    ensures forall i :: |s| - n <= i < |s| ==> sp(s[i])
    ensures n == |s| || !sp(s[|s| - n - 1])
  {
    if s != [] && sp(s[|s| - 1]) then 1 + TrailingCount(s[..|s| - 1], sp) else 0
  }

  /** `s` without its longest prefix of `sp` characters. */
  function TrimStart(s: string, sp: char -> bool): string {
    s[LeadingCount(s, sp)..]
  }

  /** `s` without its longest suffix of `sp` characters. */
  function TrimEnd(s: string, sp: char -> bool): string {
    s[..|s| - TrailingCount(s, sp)]
  }

  /** `s` without the `sp` characters at either end. */
  function Trim(s: string, sp: char -> bool): string {
    TrimEnd(TrimStart(s, sp), sp)
  }

  /** Trimming finds the infix of `s` that starts and ends with a
      non-space character, and only space characters lie outside it. */
  lemma TrimInfix(s: string, sp: char -> bool)
    ensures var r, i := Trim(s, sp), |s| - |TrimStart(s, sp)|;
            && i + |r| <= |s| && r == s[i..i + |r|]
            && (forall j :: 0 <= j < i ==> sp(s[j]))
            && (forall j :: i + |r| <= j < |s| ==> sp(s[j]))
            && (r == [] || (!sp(r[0]) && !sp(r[|r| - 1])))
  {
    var a := TrimStart(s, sp);
    var r := TrimEnd(a, sp);
    var i := |s| - |a|;
    assert a == s[i..];
    assert r == a[..|r|];
    assert r == s[i..i + |r|];
    forall j | i + |r| <= j < |s| ensures sp(s[j]) {
      assert s[j] == a[j - i];
    }
    assert r != [] ==> !sp(r[0]) by {
      if r != [] { assert r[0] == a[0]; }
    }
  }

  /** Trimming twice is trimming once. */
  lemma TrimIdempotent(s: string, sp: char -> bool)
    ensures Trim(Trim(s, sp), sp) == Trim(s, sp)
  {
    var r := Trim(s, sp);
    if r != [] {
      assert TrimStart(r, sp) == r;
    }
  }

  /** ASCII upper case (PHP's `strtoupper`, which leaves every other
      character alone). */
  function UpperChar(c: char): char {
    if 'a' <= c <= 'z' then (c as int - 32) as char else c
  }

  function Upper(s: string): (r: string)
    ensures |r| == |s|
    ensures forall i :: 0 <= i < |s| ==> r[i] == UpperChar(s[i])
  {
    if s == [] then [] else Upper(s[..|s| - 1]) + [UpperChar(s[|s| - 1])]
  }

  /** An upper-cased string holds no ASCII lower-case letter, and upper-casing
      it again changes nothing. */
  lemma UpperNormal(s: string)
    ensures forall i :: 0 <= i < |s| ==> !('a' <= Upper(s)[i] <= 'z')
    ensures Upper(Upper(s)) == Upper(s)
  {
  }

  /** Upper-casing and trimming commute when no space character is a letter:
      the form upper-cases then trims a task id but trims then upper-cases
      a predecessor, and both give the same name. */
  lemma {:induction false} UpperTrimCommute(s: string, sp: char -> bool)
    requires forall c :: sp(UpperChar(c)) <==> sp(c)
    ensures Trim(Upper(s), sp) == Upper(Trim(s, sp))
  {
    UpperTrimStart(s, sp);
    UpperTrimEnd(TrimStart(s, sp), sp);
  }

  lemma {:induction false} UpperTrimStart(s: string, sp: char -> bool)
    requires forall c :: sp(UpperChar(c)) <==> sp(c)
    ensures TrimStart(Upper(s), sp) == Upper(TrimStart(s, sp))
  {
    if s != [] && sp(s[0]) {
      assert Upper(s)[1..] == Upper(s[1..]);
      UpperTrimStart(s[1..], sp);
    } else if s != [] {
      assert !sp(UpperChar(s[0]));
    }
  }

  lemma {:induction false} UpperTrimEnd(s: string, sp: char -> bool)
    requires forall c :: sp(UpperChar(c)) <==> sp(c)
    ensures TrimEnd(Upper(s), sp) == Upper(TrimEnd(s, sp))
  {
    if s != [] && sp(s[|s| - 1]) {
      assert Upper(s)[..|s| - 1] == Upper(s[..|s| - 1]);
      UpperTrimEnd(s[..|s| - 1], sp);
    } else if s != [] {
      assert !sp(UpperChar(s[|s| - 1]));
    }
  }

  /** PHP's `empty` on a string: the empty string and "0". */
  predicate PhpEmpty(s: string) {
    s == "" || s == "0"
  }

  /** Upper-casing neither makes a string empty in PHP's sense nor stops it
      from being so. */
  lemma UpperPhpEmpty(s: string)
    ensures PhpEmpty(Upper(s)) <==> PhpEmpty(s)
  {
    if |s| == 1 {
      assert Upper(s) == [UpperChar(s[0])];
    }
  }

  /** Trimming and upper-casing a string that holds no list separator gives
      one that holds none either. */
  lemma CleanedHasNoSeparator(s: string)
    requires forall c :: c in s ==> !IsListSeparator(c)
    ensures forall c :: c in Upper(Trim(s, IsPhpSpace)) ==> !IsListSeparator(c)
  {
    var r := Trim(s, IsPhpSpace);
    TrimInfix(s, IsPhpSpace);
    forall c | c in Upper(r) ensures !IsListSeparator(c) {
      var i :| 0 <= i < |r| && Upper(r)[i] == c;
      assert r[i] in s;
    }
  }

  /** The fields of `s` between the `sep` characters, empty fields included
      (JavaScript's `split` with a one-character separator). */
  function Fields(s: string, sep: char -> bool): (r: seq<string>)
    ensures |r| >= 1
  {
    if s == [] then [""]
    else
      var f := Fields(s[..|s| - 1], sep);
      var c := s[|s| - 1];
      if sep(c) then f + [""]
      else f[..|f| - 1] + [f[|f| - 1] + [c]]
  }

  /** No field holds a separator. */
  lemma {:induction false} FieldsNoSeparator(s: string, sep: char -> bool)
    ensures forall i, c :: 0 <= i < |Fields(s, sep)| && c in Fields(s, sep)[i] ==> !sep(c)
  {
    if s != [] {
      var f := Fields(s[..|s| - 1], sep);
      FieldsNoSeparator(s[..|s| - 1], sep);
      var c := s[|s| - 1];
      var r := Fields(s, sep);
      if sep(c) {
        assert forall i :: 0 <= i < |f| ==> r[i] == f[i];
      } else {
        assert forall i :: 0 <= i < |f| - 1 ==> r[i] == f[i];
        assert r[|f| - 1] == f[|f| - 1] + [c];
      }
    }
  }

  /** Splitting on one character and joining with it again gives back the
      string. */
  lemma {:induction false} SplitJoin(s: string, c: char)
    ensures Join(Fields(s, x => x == c), [c]) == s
  {
    var sep := x => x == c;
    if s != [] {
      var init := s[..|s| - 1];
      var f := Fields(init, sep);
      SplitJoin(init, c);
      assert s == init + [s[|s| - 1]];
      if s[|s| - 1] == c {
        assert Fields(s, sep) == f + [""];
        JoinSnoc(f, [c], "");
      } else {
        assert Fields(s, sep) == f[..|f| - 1] + [f[|f| - 1] + [s[|s| - 1]]];
        JoinExtendLast(f, [c], [s[|s| - 1]]);
      }
    }
  }

  /** The characters of `s` that are not separators, in order. */
  function Kept(s: string, sep: char -> bool): string {
    if s == [] then ""
    else Kept(s[..|s| - 1], sep) + (if sep(s[|s| - 1]) then "" else [s[|s| - 1]])
  }

  /** The parts laid end to end. */
  function Concat(parts: seq<string>): string {
    if parts == [] then "" else Concat(parts[..|parts| - 1]) + parts[|parts| - 1]
  }

  lemma ConcatAppend(a: seq<string>, b: seq<string>)
    ensures Concat(a + b) == Concat(a) + Concat(b)
    decreases |b|
  {
    if b != [] {
      assert (a + b)[..|a + b| - 1] == a + b[..|b| - 1];
      ConcatAppend(a, b[..|b| - 1]);
    } else {
      assert a + b == a;
    }
  }

  lemma ConcatThree(a: seq<string>, b: seq<string>, c: seq<string>)
    ensures Concat(a + b + c) == Concat(a) + Concat(b) + Concat(c)
  {
    ConcatAppend(a + b, c);
    ConcatAppend(a, b);
  }

  /** The fields hold every non-separator character of `s`, in order. */
  lemma {:induction false} FieldsKeepText(s: string, sep: char -> bool)
    ensures Concat(Fields(s, sep)) == Kept(s, sep)
  {
    if s != [] {
      var init := s[..|s| - 1];
      var f := Fields(init, sep);
      var c := s[|s| - 1];
      FieldsKeepText(init, sep);
      if sep(c) {
        assert Fields(s, sep) == f + [""];
        assert (f + [""])[..|f|] == f;
      } else {
        var front, last := f[..|f| - 1], f[|f| - 1];
        var g := front + [last + [c]];
        assert Fields(s, sep) == g;
        assert g[..|g| - 1] == front;
        assert f[..|f| - 1] == front;
      }
    }
  }

  /** The non-empty strings of `parts`, in order. */
  function NonEmpty(parts: seq<string>): (r: seq<string>)
    ensures forall x :: x in r <==> x in parts && x != ""
  {
    if parts == [] then []
    else NonEmpty(parts[..|parts| - 1]) + (if parts[|parts| - 1] == "" then [] else [parts[|parts| - 1]])
  }

  lemma {:induction false} NonEmptyConcat(parts: seq<string>)
    ensures Concat(NonEmpty(parts)) == Concat(parts)
  {
    if parts != [] {
      var init, last := parts[..|parts| - 1], parts[|parts| - 1];
      NonEmptyConcat(init);
      var tail := if last == "" then [] else [last];
      ConcatAppend(NonEmpty(init), tail);
      assert Concat([last]) == Concat([]) + last;
    }
  }

  /** PHP's `preg_split('/[\s,;]+/', s)`: every maximal run of separators
      splits the string once, so an empty piece can only come first (when
      `s` starts with a separator) or last (when it ends with one). */
  function ListSplit(s: string): (r: seq<string>)
    ensures |r| >= 1
  {
    var f := Fields(s, IsListSeparator);
    if |f| <= 1 then f
    else [f[0]] + NonEmpty(f[1..|f| - 1]) + [f[|f| - 1]]
  }

  /** No piece holds a separator, and only the first and the last piece
      can be empty. */
  lemma ListSplitPieces(s: string)
    ensures var r := ListSplit(s);
            && (forall i, c :: 0 <= i < |r| && c in r[i] ==> !IsListSeparator(c))
            && (forall i :: 0 < i < |r| - 1 ==> r[i] != "")
  {
    var f := Fields(s, IsListSeparator);
    var r := ListSplit(s);
    FieldsNoSeparator(s, IsListSeparator);
    if |f| > 1 {
      var inner := f[1..|f| - 1];
      var middle := NonEmpty(inner);
      assert r == [f[0]] + middle + [f[|f| - 1]];
      forall i | 0 < i < |r| - 1 ensures r[i] != "" {
        assert r[i] == middle[i - 1] && middle[i - 1] in middle;
      }
      forall i | 0 <= i < |r| ensures exists j :: 0 <= j < |f| && r[i] == f[j] {
        if i == 0 {
          assert r[i] == f[0];
        } else if i == |r| - 1 {
          assert r[i] == f[|f| - 1];
        } else {
          assert r[i] in middle;
          var j :| 0 <= j < |inner| && inner[j] == r[i];
          assert r[i] == f[j + 1];
        }
      }
    } else {
      assert r == f;
    }
  }

  /** The pieces hold exactly the non-separator characters of `s`, in
      order. */
  lemma ListSplitKeepsText(s: string)
    ensures Concat(ListSplit(s)) == Kept(s, IsListSeparator)
  {
    var f := Fields(s, IsListSeparator);
    FieldsKeepText(s, IsListSeparator);
    if |f| > 1 {
      var first, middle, last := [f[0]], f[1..|f| - 1], [f[|f| - 1]];
      assert f == first + middle + last;
      var kept := NonEmpty(middle);
      assert ListSplit(s) == first + kept + last;
      ConcatThree(first, kept, last);
      ConcatThree(first, middle, last);
      NonEmptyConcat(middle);
      assert Concat(ListSplit(s)) == Concat(first) + Concat(kept) + Concat(last);
      assert Concat(f) == Concat(first) + Concat(middle) + Concat(last);
    } else {
      assert ListSplit(s) == f;
    }
  }

  predicate IsDecimalDigit(c: char) { '0' <= c <= '9' }

  predicate IsHexDigit(c: char) { '0' <= c <= '9' || 'a' <= c <= 'f' || 'A' <= c <= 'F' }

  function DigitValue(c: char): nat {
    if '0' <= c <= '9' then c as nat - '0' as nat
    else if 'a' <= c <= 'f' then c as nat - 'a' as nat + 10
    else if 'A' <= c <= 'F' then c as nat - 'A' as nat + 10
    else 0
  }

  /** The longest prefix of `s` made of characters `ok` accepts. */
  function Leading(s: string, ok: char -> bool): (r: string)
    ensures |r| <= |s| && r == s[..|r|]
    ensures forall i :: 0 <= i < |r| ==> ok(r[i])
    ensures |r| == |s| || !ok(s[|r|])
  {
    if s != [] && ok(s[0]) then [s[0]] + Leading(s[1..], ok) else ""
  }

  /** The value of a digit string in `base`. */
  function DigitsValue(ds: string, base: nat): nat {
    if ds == [] then 0 else DigitsValue(ds[..|ds| - 1], base) * base + DigitValue(ds[|ds| - 1])
  }

  /** The digits after an optional sign: hexadecimal after a `0x` or `0X`
      prefix, decimal otherwise, as many as there are; `None` when there is
      none. */
  function ParseUnsigned(body: string): (r: Option<nat>)
  {
    if |body| >= 2 && body[0] == '0' && (body[1] == 'x' || body[1] == 'X') then
      var digits := Leading(body[2..], IsHexDigit);
      if digits == [] then None else Some(DigitsValue(digits, 16))
    else
      var digits := Leading(body, IsDecimalDigit);
      if digits == [] then None else Some(DigitsValue(digits, 10))
  }

  /** JavaScript's `parseInt(s)` without a radix: skip leading white space,
      read an optional sign, then the digits; `None` stands for `NaN`. */
  function ParseInt(s: string): (r: Option<int>)
  {
    var t := TrimStart(s, IsJsSpace);
    if t != [] && (t[0] == '-' || t[0] == '+') then
      match ParseUnsigned(t[1..])
      case None => None
      case Some(v) => Some(if t[0] == '-' then -(v as int) else v as int)
    else
      match ParseUnsigned(t)
      case None => None
      case Some(v) => Some(v)
  }

  /** The decimal numeral of `n`, without leading zeros. */
  function Decimal(n: nat): (r: string)
    ensures r != [] && forall i :: 0 <= i < |r| ==> IsDecimalDigit(r[i])
    ensures r[0] == '0' ==> n == 0
  {
    if n < 10 then [('0' as int + n) as char]
    else Decimal(n / 10) + [('0' as int + n % 10) as char]
  }

  lemma {:induction false} DecimalValue(n: nat)
    ensures DigitsValue(Decimal(n), 10) == n
  {
    if n >= 10 {
      var d := Decimal(n);
      DecimalValue(n / 10);
      assert d[..|d| - 1] == Decimal(n / 10);
    }
  }

  /** Reading a decimal numeral back gives the number, whatever follows the
      digits (as in "12px"), unless it is a digit or the `x` that would turn
      "0" into a hexadecimal prefix. */
  lemma ParseDecimal(n: nat, rest: string)
    requires rest == [] || (!IsDecimalDigit(rest[0]) && rest[0] != 'x' && rest[0] != 'X')
    ensures ParseInt(Decimal(n) + rest) == Some(n)
  {
    var d := Decimal(n);
    var s := d + rest;
    assert s[0] == d[0];
    assert TrimStart(s, IsJsSpace) == s;
    UnsignedDecimal(n, rest);
  }

  lemma UnsignedDecimal(n: nat, rest: string)
    requires rest == [] || (!IsDecimalDigit(rest[0]) && rest[0] != 'x' && rest[0] != 'X')
    ensures ParseUnsigned(Decimal(n) + rest) == Some(n)
  {
    var d := Decimal(n);
    var s := d + rest;
    assert s[0] == d[0];
    assert !(|s| >= 2 && s[0] == '0' && (s[1] == 'x' || s[1] == 'X')) by {
      if |s| >= 2 && s[0] == '0' {
        assert n == 0;
        assert d == "0";
        assert s[1] == rest[0];
      }
    }
    LeadingDigits(d, rest);
    DecimalValue(n);
  }

  lemma {:induction false} LeadingDigits(d: string, rest: string)
    requires forall i :: 0 <= i < |d| ==> IsDecimalDigit(d[i])
    requires rest == [] || !IsDecimalDigit(rest[0])
    ensures Leading(d + rest, IsDecimalDigit) == d
  {
    if d != [] {
      assert (d + rest)[1..] == d[1..] + rest;
      LeadingDigits(d[1..], rest);
    } else {
      assert d + rest == rest;
    }
  }

  /** `parseInt` finds no number exactly when no digit follows the white
      space, the sign and the hexadecimal prefix; a number it finds is
      negative only after a minus sign. */
  lemma ParseIntNaN(s: string)
    ensures var t := TrimStart(s, IsJsSpace);
            var signed := t != [] && (t[0] == '-' || t[0] == '+');
            var body := if signed then t[1..] else t;
            && (ParseInt(s).None? <==>
                 if |body| >= 2 && body[0] == '0' && (body[1] == 'x' || body[1] == 'X')
                 then |body| == 2 || !IsHexDigit(body[2])
                 else body == [] || !IsDecimalDigit(body[0]))
            && (ParseInt(s).Some? && ParseInt(s).value < 0 ==> t[0] == '-')
  {
  }
}
