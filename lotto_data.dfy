/** The row parser of `load_lotto_data`: `[list(map(int, line.strip().split(','))) for line in lines]`,
    applied to the lines of the history file once they have been read. */
module LottoData {
  import opened Wrappers

  /** Python's `str.isspace`: the characters `str.strip()` removes at either end. */
  predicate IsSpace(c: char)
    ensures IsSpace(c) ==> !IsDigit(c) && c != ',' && c != '+' && c != '-'
  {
    var n := c as int;
    || 9 <= n <= 13 || 28 <= n <= 32 || n == 0x85 || n == 0xA0 || n == 0x1680
    || 0x2000 <= n <= 0x200A || n == 0x2028 || n == 0x2029 || n == 0x202F
    || n == 0x205F || n == 0x3000
  }

  /** The characters `int()` skips around a number. CPython turns every non-ASCII
      whitespace character into a blank, keeps ASCII characters as they are, and then skips
      only blank, tab, line feed, vertical tab, form feed and carriage return; so the
      ASCII separators U+001C to U+001F, whitespace to `str.isspace`, are not skipped. */
  predicate IsIntSpace(c: char)
    ensures IsIntSpace(c) ==> IsSpace(c)
    ensures (c as int) < 128 ==> (IsIntSpace(c) <==> c == ' ' || '\t' <= c <= '\r')
    ensures (c as int) >= 128 ==> (IsIntSpace(c) <==> IsSpace(c))
  {
    IsSpace(c) && !(28 <= c as int <= 31)
  }

  predicate IsDigit(c: char) {
    '0' <= c <= '9'
  }

  /** The number of characters satisfying `space` that `s` starts with. */
  function LeadingSpace(s: string, space: char -> bool): (n: nat)
    ensures n <= |s|
    ensures forall i :: 0 <= i < n ==> space(s[i])
    ensures n == |s| || !space(s[n])
  {
    if |s| > 0 && space(s[0]) then 1 + LeadingSpace(s[1..], space) else 0
  }

  /** Drops the trailing characters satisfying `space`. */
  function TrimEnd(s: string, space: char -> bool): (r: string)
    ensures |r| <= |s| && r == s[..|r|]
    ensures |r| == 0 || !space(r[|r| - 1])
    ensures forall i :: |r| <= i < |s| ==> space(s[i])
  {
    if |s| > 0 && space(s[|s| - 1]) then TrimEnd(s[..|s| - 1], space) else s
  }

  /** Stripping the characters satisfying `space` (with `IsSpace`, `str.strip()`): the infix
      of `s` that starts after its leading run and has none of them at either end, everything
      after it satisfying `space` too. */
  function Strip(s: string, space: char -> bool): (r: string)
    ensures |r| == 0 || (!space(r[0]) && !space(r[|r| - 1]))
    ensures LeadingSpace(s, space) + |r| <= |s|
    ensures r == s[LeadingSpace(s, space)..LeadingSpace(s, space) + |r|]
    ensures forall i :: LeadingSpace(s, space) + |r| <= i < |s| ==> space(s[i])
  {
    var a := LeadingSpace(s, space);
    var r := TrimEnd(s[a..], space);
    assert forall i :: a + |r| <= i < |s| ==> s[i] == s[a..][i - a];
    r
  }

  /** A string that neither starts nor ends with a character satisfying `space` is its own strip. */
  lemma StripUnspaced(s: string, space: char -> bool)
    requires |s| == 0 || (!space(s[0]) && !space(s[|s| - 1]))
    ensures Strip(s, space) == s
  {
  }

  /** Characters satisfying `space` around a field that neither starts nor ends with one
      are exactly what stripping removes. */
  lemma StripPadded(pre: string, f: string, post: string, space: char -> bool)
    requires forall i :: 0 <= i < |pre| ==> space(pre[i])
    requires forall i :: 0 <= i < |post| ==> space(post[i])
    requires |f| > 0 && !space(f[0]) && !space(f[|f| - 1])
    ensures Strip(pre + f + post, space) == f
  {
    var s := pre + f + post;
    var a := LeadingSpace(s, space);
    assert s[|pre|] == f[0];
    assert a == |pre|;
    assert s[|pre| + |f| - 1] == f[|f| - 1];
    assert s[a..a + |f|] == f;
  }

  /** How often `c` occurs in `s`. */
  function Count(s: string, c: char): nat
  {
    if |s| == 0 then 0 else (if s[0] == c then 1 else 0) + Count(s[1..], c)
  }

  /** `str.split(sep)` with an explicit separator: the pieces between separators, empty ones
      included, so that a string with `n` separators gives `n + 1` pieces. */
  function Split(s: string, sep: char): (r: seq<string>)
    ensures |r| == Count(s, sep) + 1
    ensures forall i :: 0 <= i < |r| ==> sep !in r[i]
  {
    if |s| == 0 then [""]
    else
      var rest := Split(s[1..], sep);
      assert s == [s[0]] + s[1..];
      if s[0] == sep then [""] + rest
      else [[s[0]] + rest[0]] + rest[1..]
  }

  /** `sep.join(parts)`, the inverse of `Split`. */
  function Join(parts: seq<string>, sep: char): string
  {
    if |parts| == 0 then ""
    else if |parts| == 1 then parts[0]
    else parts[0] + [sep] + Join(parts[1..], sep)
  }

  /** Splitting loses nothing: joining the pieces gives the string back. */
  lemma {:induction false} JoinSplit(s: string, sep: char)
    ensures Join(Split(s, sep), sep) == s
  {
    if |s| > 0 {
      var rest := Split(s[1..], sep);
      JoinSplit(s[1..], sep);
      SplitFirst(s, sep);
      if s[0] == sep {
        JoinCons("", rest, sep);
        assert s == [sep] + s[1..];
      } else {
        JoinExtendHead(s[0], rest, sep);
        assert s == [s[0]] + s[1..];
      }
    }
  }

  /** How `Split` treats the first character of a non-empty string. */
  lemma SplitFirst(s: string, sep: char)
    requires |s| > 0
    ensures s[0] == sep ==> Split(s, sep) == [""] + Split(s[1..], sep)
    ensures s[0] != sep ==> Split(s, sep) == [[s[0]] + Split(s[1..], sep)[0]] + Split(s[1..], sep)[1..]
  {
  }

  /** Prefixing the first piece by a character prefixes the joined string by it. */
  lemma JoinExtendHead(c: char, ps: seq<string>, sep: char)
    requires |ps| > 0
    ensures Join([[c] + ps[0]] + ps[1..], sep) == [c] + Join(ps, sep)
  {
    if |ps| > 1 {
      JoinCons([c] + ps[0], ps[1..], sep);
      JoinCons(ps[0], ps[1..], sep);
      assert [ps[0]] + ps[1..] == ps;
    }
  }

  /** Joining a longer list puts the head, then the separator, then the joined tail. */
  lemma JoinCons(p: string, ps: seq<string>, sep: char)
    requires |ps| > 0
    ensures Join([p] + ps, sep) == p + [sep] + Join(ps, sep)
  {
    assert ([p] + ps)[1..] == ps;
  }

  /** Pieces that hold no separator come back out of `Split` unchanged. */
  lemma {:induction false} SplitJoin(parts: seq<string>, sep: char)
    requires |parts| > 0
    requires forall i :: 0 <= i < |parts| ==> sep !in parts[i]
    ensures Split(Join(parts, sep), sep) == parts
  {
    if |parts| == 1 {
      SplitPiece(parts[0], sep);
    } else {
      SplitJoin(parts[1..], sep);
      SplitPieceThen(parts[0], sep, Join(parts[1..], sep));
      assert [parts[0]] + parts[1..] == parts;
    }
  }

  lemma {:induction false} SplitPiece(p: string, sep: char)
    requires sep !in p
    ensures Split(p, sep) == [p]
  {
    if |p| > 0 {
      SplitPiece(p[1..], sep);
      assert p == [p[0]] + p[1..];
    }
  }

  /** A separator-free piece followed by a separator splits off as the first piece. */
  lemma {:induction false} SplitPieceThen(p: string, sep: char, tail: string)
    requires sep !in p
    ensures Split(p + [sep] + tail, sep) == [p] + Split(tail, sep)
  {
    var s := p + [sep] + tail;
    SplitFirst(s, sep);
    if |p| == 0 {
      assert s[1..] == tail;
    } else {
      var q := p[1..];
      assert s[0] == p[0] != sep;
      assert s[1..] == q + [sep] + tail;
      SplitPieceThen(q, sep, tail);
      var rest := Split(s[1..], sep);
      assert rest == [q] + Split(tail, sep);
      assert rest[0] == q && rest[1..] == Split(tail, sep);
      assert [p[0]] + q == p;
    }
  }

  function DigitValue(c: char): nat
    requires IsDigit(c)
  {
    (c as int) - ('0' as int)
  }

  /** The value of a string of decimal digits. */
  function DigitsValue(ds: string): nat
    requires forall i :: 0 <= i < |ds| ==> IsDigit(ds[i])
  {
    if |ds| == 0 then 0
    else DigitsValue(ds[..|ds| - 1]) * 10 + DigitValue(ds[|ds| - 1])
  }

  predicate AllDigits(ds: string) {
    |ds| > 0 && forall i :: 0 <= i < |ds| ==> IsDigit(ds[i])
  }

  /** CPython's default limit (since 3.11, and in the 3.7 to 3.10 security releases of
      September 2022) on the number of digits `int` converts from a string and `str` prints. */
  const MaxStrDigits := 4300

  /** A digit string `int` accepts: one to `MaxStrDigits` decimal digits. */
  predicate IsDecimal(ds: string) {
    AllDigits(ds) && |ds| <= MaxStrDigits
  }

  /** `int(field)` in base ten: surrounding `IsIntSpace` characters, an optional sign, then
      one to `MaxStrDigits` decimal digits; anything else raises, modelled as `None`. */
  function ParseInt(field: string): (r: Option<int>)
    ensures r.Some? <==>
      var t := Strip(field, IsIntSpace);
      IsDecimal(t) || (|t| > 0 && (t[0] == '+' || t[0] == '-') && IsDecimal(t[1..]))
  {
    ParseSigned(Strip(field, IsIntSpace))
  }

  /** The number a stripped field stands for: an optional sign, then the digits. */
  function ParseSigned(t: string): (r: Option<int>)
    ensures r.Some? <==> IsDecimal(t) || (|t| > 0 && (t[0] == '+' || t[0] == '-') && IsDecimal(t[1..]))
  {
    if IsDecimal(t) then Some(DigitsValue(t) as int)
    else if |t| > 0 && t[0] == '+' && IsDecimal(t[1..]) then Some(DigitsValue(t[1..]) as int)
    else if |t| > 0 && t[0] == '-' && IsDecimal(t[1..]) then Some(-(DigitsValue(t[1..]) as int))
    else None
  }

  /** `z` zero digits. */
  function Zeros(z: nat): (r: string)
    ensures |r| == z && forall i :: 0 <= i < z ==> r[i] == '0'
  {
    seq(z, _ => '0')
  }

  /** Leading zeros do not change the value of a digit string. */
  lemma {:induction false} LeadingZeros(z: nat, ds: string)
    requires forall i :: 0 <= i < |ds| ==> IsDigit(ds[i])
    ensures forall i :: 0 <= i < |Zeros(z) + ds| ==> IsDigit((Zeros(z) + ds)[i])
    ensures DigitsValue(Zeros(z) + ds) == DigitsValue(ds)
  {
    var s := Zeros(z) + ds;
    if |ds| == 0 {
      assert s == Zeros(z);
      if z > 0 {
        LeadingZeros(z - 1, ds);
        assert s[..|s| - 1] == Zeros(z - 1) + ds;
      }
    } else {
      LeadingZeros(z, ds[..|ds| - 1]);
      assert s[..|s| - 1] == Zeros(z) + ds[..|ds| - 1];
      assert s[|s| - 1] == ds[|ds| - 1];
    }
  }

  /** The value `int` gives a field: optional `IsIntSpace` padding, an optional sign, then
      one to `MaxStrDigits` decimal digits. */
  lemma ParseIntValue(pre: string, sign: string, digits: string, post: string)
    requires forall i :: 0 <= i < |pre| ==> IsIntSpace(pre[i])
    requires forall i :: 0 <= i < |post| ==> IsIntSpace(post[i])
    requires sign == "" || sign == "+" || sign == "-"
    requires IsDecimal(digits)
    ensures ParseInt(pre + sign + digits + post) ==
      Some(if sign == "-" then -(DigitsValue(digits) as int) else DigitsValue(digits) as int)
  {
    var f := sign + digits;
    var s := pre + sign + digits + post;
    assert s == pre + f + post;
    SignedEnds(sign, digits);
    StripPadded(pre, f, post, IsIntSpace);
    assert Strip(s, IsIntSpace) == f;
    SignedValue(sign, digits);
  }

  /** A signed digit string neither starts nor ends with a character `int` skips. */
  lemma SignedEnds(sign: string, digits: string)
    requires sign == "" || sign == "+" || sign == "-"
    requires AllDigits(digits)
    ensures |sign + digits| > 0
    ensures !IsIntSpace((sign + digits)[0]) && !IsIntSpace((sign + digits)[|sign + digits| - 1])
  {
    var f := sign + digits;
    assert f[|f| - 1] == digits[|digits| - 1];
    assert f[0] == if sign == "" then digits[0] else sign[0];
  }

  /** An optional sign before a decimal digit string gives the signed value. */
  lemma SignedValue(sign: string, digits: string)
    requires sign == "" || sign == "+" || sign == "-"
    requires IsDecimal(digits)
    ensures ParseSigned(sign + digits) ==
      Some(if sign == "-" then -(DigitsValue(digits) as int) else DigitsValue(digits) as int)
  {
    var f := sign + digits;
    if sign == "" {
      assert f == digits;
    } else {
      assert f[1..] == digits;
      assert !IsDigit(f[0]);
    }
  }

  /** `int` of a padded, optionally signed, zero-led decimal field gives its number. */
  lemma ParseIntNumber(pre: string, sign: string, z: nat, n: nat, post: string)
    requires forall i :: 0 <= i < |pre| ==> IsIntSpace(pre[i])
    requires forall i :: 0 <= i < |post| ==> IsIntSpace(post[i])
    requires sign == "" || sign == "+" || sign == "-"
    requires z + |ShowNat(n)| <= MaxStrDigits
    ensures ParseInt(pre + sign + Zeros(z) + ShowNat(n) + post) == Some(if sign == "-" then -(n as int) else n as int)
  {
    ZeroLedValue(z, n);
    ZeroLedParse(pre, sign, Zeros(z), ShowNat(n), post, n);
  }

  /** `ParseIntValue` for a digit string made of two parts, with its value named. */
  lemma ZeroLedParse(pre: string, sign: string, zs: string, ds: string, post: string, n: nat)
    requires forall i :: 0 <= i < |pre| ==> IsIntSpace(pre[i])
    requires forall i :: 0 <= i < |post| ==> IsIntSpace(post[i])
    requires sign == "" || sign == "+" || sign == "-"
    requires IsDecimal(zs + ds) && DigitsValue(zs + ds) == n
    ensures ParseInt(pre + sign + zs + ds + post) == Some(if sign == "-" then -(n as int) else n as int)
  {
    Regroup(pre, sign, zs, ds, post);
    ParseIntValue(pre, sign, zs + ds, post);
  }

  /** Zeros before the digits of `n` keep its value. */
  lemma ZeroLedValue(z: nat, n: nat)
    requires z + |ShowNat(n)| <= MaxStrDigits
    ensures IsDecimal(Zeros(z) + ShowNat(n)) && DigitsValue(Zeros(z) + ShowNat(n)) == n
  {
    LeadingZeros(z, ShowNat(n));
    ShowNatValue(n);
  }

  /** Concatenation regrouped. */
  lemma Regroup(a: string, b: string, c: string, d: string, e: string)
    ensures a + b + c + d + e == a + b + (c + d) + e
  {
  }

  /** The decimal digits of `n`, as `str(n)` prints a non-negative integer. */
  function ShowNat(n: nat): (r: string)
    ensures AllDigits(r)
  {
    if n < 10 then [('0' as int + n) as char]
    else ShowNat(n / 10) + [('0' as int + n % 10) as char]
  }

  function Magnitude(n: int): nat {
    if n < 0 then -n else n
  }

  /** `str(n)`, for the integers `str` can print. */
  function ShowInt(n: int): (r: string)
  {
    if n < 0 then "-" + ShowNat(-n) else ShowNat(n)
  }

  /** The integers whose decimal form is within `MaxStrDigits` digits. */
  predicate Printable(n: int) {
    |ShowNat(Magnitude(n))| <= MaxStrDigits
  }

  lemma {:induction false} ShowNatValue(n: nat)
    ensures DigitsValue(ShowNat(n)) == n
  {
    var s := ShowNat(n);
    if n >= 10 {
      ShowNatValue(n / 10);
      assert s[..|s| - 1] == ShowNat(n / 10);
    }
  }

  /** `int(str(n)) == n` for every integer within the digit limit; beyond it the digit
      string is refused. */
  lemma ParseShowInt(n: int)
    ensures Printable(n) ==> ParseInt(ShowInt(n)) == Some(n)
    ensures !Printable(n) ==> ParseInt(ShowInt(n)) == None
  {
    ShowNatValue(Magnitude(n));
    if n < 0 {
      ParseNegative(ShowNat(-n));
    } else {
      ParseDigits(ShowNat(n));
    }
  }

  /** A digit string is its own stripped field and parses when within the digit limit. */
  lemma ParseDigits(ds: string)
    requires AllDigits(ds)
    ensures ParseInt(ds) == if IsDecimal(ds) then Some(DigitsValue(ds) as int) else None
  {
    StripUnspaced(ds, IsIntSpace);
    if !IsDecimal(ds) {
      assert !IsDigit('+') && !IsDigit('-');
    }
  }

  /** A minus sign followed by a digit string parses to the negated value within the digit limit. */
  lemma ParseNegative(ds: string)
    requires AllDigits(ds)
    ensures ParseInt("-" + ds) == if IsDecimal(ds) then Some(-(DigitsValue(ds) as int)) else None
  {
    StripNegative(ds);
    SignedNegative(ds);
  }

  lemma StripNegative(ds: string)
    requires AllDigits(ds)
    ensures Strip("-" + ds, IsIntSpace) == "-" + ds
  {
    var s := "-" + ds;
    assert s[|s| - 1] == ds[|ds| - 1];
    assert IsDigit(s[|s| - 1]);
    StripUnspaced(s, IsIntSpace);
  }

  lemma SignedNegative(ds: string)
    requires AllDigits(ds)
    ensures ParseSigned("-" + ds) == if IsDecimal(ds) then Some(-(DigitsValue(ds) as int)) else None
  {
    var s := "-" + ds;
    assert s[1..] == ds;
    assert !IsDecimal(s) by { assert !IsDigit(s[0]); }
  }

  /** The fields of one line: `line.strip().split(',')`. */
  function Fields(line: string): (fs: seq<string>)
    ensures |fs| == Count(Strip(line, IsSpace), ',') + 1
  {
    Split(Strip(line, IsSpace), ',')
  }

  /** One line of the history file: every field parsed by `int`. */
  function ParseLine(line: string): (r: Option<seq<int>>)
    ensures r.Some? <==> forall j :: 0 <= j < |Fields(line)| ==> ParseInt(Fields(line)[j]).Some?
    ensures r.Some? ==> |r.value| == |Fields(line)|
    ensures r.Some? ==> forall j :: 0 <= j < |r.value| ==> ParseInt(Fields(line)[j]) == Some(r.value[j])
  {
    var fields := Fields(line);
    var r := Traverse(fields, field => ParseInt(field));
    assert forall j :: 0 <= j < |fields| ==> (field => ParseInt(field))(fields[j]) == ParseInt(fields[j]);
    r
  }

  /** `load_lotto_data` once the file has been read into `lines`: one row per line, in order;
      a field that is not an integer makes the whole load raise, modelled as `None`. */
  function LoadLottoData(lines: seq<string>): (r: Option<seq<seq<int>>>)
    ensures r.Some? <==> forall i :: 0 <= i < |lines| ==> ParseLine(lines[i]).Some?
    ensures r.Some? ==> |r.value| == |lines|
    ensures r.Some? ==> forall i :: 0 <= i < |lines| ==> ParseLine(lines[i]) == Some(r.value[i])
  {
    Traverse(lines, line => ParseLine(line))
  }

  /** A row written as `str` of each number joined by commas, `,`.join, followed by a
      line terminator or other surrounding whitespace, reads back as the same row. */
  function FormatRow(row: seq<int>): string
  {
    Join(seq(|row|, j requires 0 <= j < |row| => ShowInt(row[j])), ',')
  }

  lemma FormatRowRoundTrip(row: seq<int>)
    requires |row| > 0
    requires forall j :: 0 <= j < |row| ==> Printable(row[j])
    ensures ParseLine(FormatRow(row) + "\n") == Some(row)
  {
    var fields := seq(|row|, j requires 0 <= j < |row| => ShowInt(row[j]));
    forall j | 0 <= j < |fields| ensures Rendered(fields[j]) {
      ShowIntRendered(row[j]);
    }
    var line := Join(fields, ',');
    JoinRendered(fields);
    StripTrailingNewline(line);
    SplitJoin(fields, ',');
    assert Fields(line + "\n") == fields;
    forall j | 0 <= j < |fields| ensures ParseInt(fields[j]) == Some(row[j]) {
      ParseShowInt(row[j]);
    }
    assert FormatRow(row) == line;
    var r := ParseLine(line + "\n");
    assert r.Some?;
    assert r.value == row;
  }

  /** A rendered field: non-empty, no comma, no whitespace at either end. */
  predicate Rendered(f: string) {
    |f| > 0 && ',' !in f && !IsSpace(f[0]) && !IsSpace(f[|f| - 1])
  }

  lemma ShowIntRendered(n: int)
    ensures Rendered(ShowInt(n))
  {
    var s := ShowInt(n);
    if n < 0 {
      assert s[1..] == ShowNat(-n);
      assert forall i :: 1 <= i < |s| ==> IsDigit(s[i]);
    }
  }

  /** Joining rendered fields with commas gives a line with no whitespace at either end. */
  lemma {:induction false} JoinRendered(fields: seq<string>)
    requires |fields| > 0
    requires forall j :: 0 <= j < |fields| ==> Rendered(fields[j])
    ensures |Join(fields, ',')| > 0
    ensures !IsSpace(Join(fields, ',')[0]) && !IsSpace(Join(fields, ',')[|Join(fields, ',')| - 1])
  {
    assert Rendered(fields[0]);
    if |fields| > 1 {
      JoinRendered(fields[1..]);
      var rest := Join(fields[1..], ',');
      var line := Join(fields, ',');
      assert line == fields[0] + [','] + rest;
      assert line[|line| - 1] == rest[|rest| - 1];
    }
  }

  lemma StripTrailingNewline(line: string)
    requires |line| > 0 && !IsSpace(line[0]) && !IsSpace(line[|line| - 1])
    ensures Strip(line + "\n", IsSpace) == line
  {
    var s := line + "\n";
    assert LeadingSpace(s, IsSpace) == 0;
    assert TrimEnd(s, IsSpace) == TrimEnd(line, IsSpace) by {
      assert s[..|s| - 1] == line;
    }
  }

  /** A blank line (the last line of a file that ends in an empty line, say) has one empty
      field, which `int` rejects, so the whole load fails. */
  lemma BlankLineFails(lines: seq<string>, i: nat)
    requires i < |lines| && forall k :: 0 <= k < |lines[i]| ==> IsSpace(lines[i][k])
    ensures LoadLottoData(lines) == None
  {
    assert Strip(lines[i], IsSpace) == "";
    assert Split("", ',') == [""];
    assert ParseInt("") == None;
  }

  /** `int()` does not skip the separator U+001C, which `str.isspace` counts as whitespace:
      a field that starts with it is refused. */
  lemma IntKeepsSeparator(field: string)
    requires |field| > 0 && field[0] == '\U{1C}'
    ensures ParseInt(field) == None
  {
    assert LeadingSpace(field, IsIntSpace) == 0;
    var t := Strip(field, IsIntSpace);
    if |t| > 0 {
      assert t[0] == field[0];
      assert !IsDigit(t[0]);
    }
  }

  /** So a line with a field padded by U+001C at its front makes the whole load fail, although
      `str.strip()` would have removed the same character at the front of the line. */
  lemma SeparatorPaddedFieldFails(lines: seq<string>, i: nat, j: nat)
    requires i < |lines| && j < |Fields(lines[i])|
    requires |Fields(lines[i])[j]| > 0 && Fields(lines[i])[j][0] == '\U{1C}'
    ensures LoadLottoData(lines) == None
  {
    IntKeepsSeparator(Fields(lines[i])[j]);
  }
}
