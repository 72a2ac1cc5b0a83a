/**
 What a file's name says: the three formats as they are printed and as they are parsed.

 A name is what stands before the terminating NUL. The parser of sparse names also looks at one byte
 behind it, because the length it takes for its suffix is the size of an address; that byte is the
 parameter `stray`.
 */
module FileNames {
  import opened Datapoints
  import opened Outcomes

  const NUL: char := '\0'
  const SPARSE_OPT_SUFFIX: string := ".opt"

  // ---- std::to_string and strtoll ----

  predicate IsDigit(c: char) {
    '0' <= c <= '9'
  }

  predicate IsSpace(c: char) {
    c == ' ' || '\t' <= c <= '\r'
  }

  function DigitOf(n: nat): (c: char)
    requires n < 10
    ensures IsDigit(c) && (c as int) - ('0' as int) == n
  {
    '0' + n as char
  }

  function PrintNat(n: nat): (s: string)
    ensures s != []
  {
    if n < 10 then [DigitOf(n)] else PrintNat(n / 10) + [DigitOf(n % 10)]
  }

  function Print(n: int): string {
    if n < 0 then ['-'] + PrintNat(-n) else PrintNat(n)
  }

  function LeadingDigits(s: string): (k: nat)
    ensures k <= |s|
  {
    if s == [] || !IsDigit(s[0]) then 0 else 1 + LeadingDigits(s[1..])
  }

  function ValueOf(digits: string): int {
    if digits == [] then 0
    else ValueOf(digits[..|digits| - 1]) * 10 + (digits[|digits| - 1] as int) - ('0' as int)
  }

  function SpacesBefore(s: string): (k: nat)
    ensures k <= |s|
  {
    if s == [] || !IsSpace(s[0]) then 0 else 1 + SpacesBefore(s[1..])
  }

  predicate HasSign(s: string) {
    s != [] && (s[0] == '-' || s[0] == '+')
  }

  /** The number at the front of `s` and how many characters it takes; none when there is no number. */
  function StrToLL(s: string): (r: (int, nat))
    ensures r.1 <= |s|
  {
    var spaces := SpacesBefore(s);
    var (v, k) := Signed(s[spaces..]);
    if k == 0 then (0, 0) else (Max(INT64_MIN, Min(v, INT64_MAX)), spaces + k)
  }

  function Signed(s: string): (r: (int, nat))
    ensures r.1 <= |s|
  {
    if !HasSign(s) then Unsigned(s)
    else
      var (v, k) := Unsigned(s[1..]);
      if k == 0 then (0, 0) else (if s[0] == '-' then -v else v, k + 1)
  }

  function Unsigned(s: string): (r: (int, nat))
    ensures r.1 <= |s|
  {
    (ValueOf(s[..LeadingDigits(s)]), LeadingDigits(s))
  }

  lemma {:induction false} PrintNatDigits(n: nat, rest: string)
    requires rest == [] || !IsDigit(rest[0])
    ensures LeadingDigits(PrintNat(n) + rest) == |PrintNat(n)|
    ensures ValueOf(PrintNat(n)) == n
    ensures IsDigit(PrintNat(n)[0])
  {
    DigitsRun(PrintNat(n), rest) by {
      AllDigits(n);
    }
    if n >= 10 {
      PrintNatDigits(n / 10, []);
      assert PrintNat(n)[..|PrintNat(n)| - 1] == PrintNat(n / 10);
    } else {
      assert PrintNat(n)[..0] == [];
    }
  }

  lemma {:induction false} AllDigits(n: nat)
    ensures forall i :: 0 <= i < |PrintNat(n)| ==> IsDigit(PrintNat(n)[i])
  {
    if n >= 10 {
      AllDigits(n / 10);
    }
  }

  lemma {:induction false} DigitsRun(d: string, rest: string)
    requires forall i :: 0 <= i < |d| ==> IsDigit(d[i])
    requires rest == [] || !IsDigit(rest[0])
    ensures LeadingDigits(d + rest) == |d|
  {
    if d == [] {
      EmptyLeft(rest);
    } else {
      assert (d + rest)[1..] == d[1..] + rest;
      DigitsRun(d[1..], rest);
    }
  }

  /** Parsing gives back the number that was printed, and stops right behind it. */
  lemma {:induction false} NumberRoundTrip(n: Timestamp, rest: string)
    requires rest == [] || !IsDigit(rest[0])
    ensures StrToLL(Print(n) + rest) == (n as int, |Print(n)|)
    ensures Print(n) != []
  {
    var i: int := n;
    if i < 0 {
      UnsignedRoundTrip(-i, rest);
      Assoc(['-'], PrintNat(-i), rest);
      Negative(PrintNat(-i) + rest);
    } else {
      UnsignedRoundTrip(i, rest);
      Unspaced(PrintNat(i) + rest);
    }
  }

  lemma {:induction false} Negative(t: string)
    requires Unsigned(t).1 > 0
    ensures StrToLL(['-'] + t) == (Max(INT64_MIN, Min(-Unsigned(t).0, INT64_MAX)), 1 + Unsigned(t).1)
  {
    assert (['-'] + t)[1..] == t;
    Unspaced(['-'] + t);
  }

  lemma {:induction false} UnsignedRoundTrip(n: nat, rest: string)
    requires rest == [] || !IsDigit(rest[0])
    ensures Unsigned(PrintNat(n) + rest) == (n as int, |PrintNat(n)|)
    ensures IsDigit((PrintNat(n) + rest)[0])
  {
    PrintNatDigits(n, rest);
    assert (PrintNat(n) + rest)[..|PrintNat(n)|] == PrintNat(n);
  }

  lemma {:induction false} Unspaced(s: string)
    requires s != [] && !IsSpace(s[0]) && Signed(s).1 > 0
    ensures StrToLL(s) == (Max(INT64_MIN, Min(Signed(s).0, INT64_MAX)), Signed(s).1)
  {
    assert s[0..] == s;
  }

  // ---- The three formats ----

  datatype SparseName = SparseName(min: int, max: int, optimized: bool)

  datatype DenseName = DenseName(start: int, duration: int)

  datatype ConstantName = ConstantName(start: int, duration: int, count: int, value: Value)

  function PrintSparse(n: SparseName): string {
    Print(n.min) + "-" + Print(n.max) + if n.optimized then SPARSE_OPT_SUFFIX else ""
  }

  function PrintDense(n: DenseName): string {
    Print(n.start) + "@" + Print(n.duration)
  }

  /** The value is not printed. */
  function PrintConstant(n: ConstantName): string {
    Print(n.start) + "@" + Print(n.duration) + "x" + Print(n.count)
  }

  /** A number and the separator behind it: what was read, and where to go on. */
  function Field(s: string, separator: char): Option<(int, string)> {
    var (v, k) := StrToLL(s);
    if k == 0 || k >= |s| || s[k] != separator then None else Some((v, s[k + 1..]))
  }

  /** A number at the end of what is left, or before a suffix. */
  function LastField(s: string): Option<(int, string)> {
    var (v, k) := StrToLL(s);
    if k == 0 then None else Some((v, s[k..]))
  }

  /** The suffix is compared up to the NUL, but the cursor moves on by eight characters. */
  function ParseSparse(s: string, stray: char): Option<SparseName> {
    match Field(s, '-')
    case None => None
    case Some((min, rest)) =>
      match LastField(rest)
      case None => None
      case Some((max, suffix)) =>
        if suffix == SPARSE_OPT_SUFFIX then (if stray != NUL then None else Some(SparseName(min, max, true)))
        else if suffix == "" then Some(SparseName(min, max, false))
        else None
  }

  function ParseDense(s: string): Option<DenseName> {
    match Field(s, '@')
    case None => None
    case Some((start, rest)) =>
      match LastField(rest)
      case None => None
      case Some((duration, end)) => if end == "" then Some(DenseName(start, duration)) else None
  }

  /** How strtod reads a value is a parameter: the value and how many characters it took. */
  function ParseConstant(s: string, strtod: string -> (Value, nat)): Option<ConstantName> {
    match Field(s, '@')
    case None => None
    case Some((start, rest)) =>
      match Field(rest, 'x')
      case None => None
      case Some((duration, rest2)) =>
        match Field(rest2, '=')
        case None => None
        case Some((count, text)) =>
          var (value, k) := strtod(text);
          if k == 0 || k != |text| || value.NaN? then None else Some(ConstantName(start, duration, count, value))
  }

  lemma {:induction false} FieldRoundTrip(n: Timestamp, separator: char, rest: string)
    requires !IsDigit(separator)
    ensures Field(Print(n) + ([separator] + rest), separator) == Some((n as int, rest))
    ensures forall c :: c != separator ==> Field(Print(n) + ([separator] + rest), c) == None
  {
    var tail := [separator] + rest;
    NumberRoundTrip(n, tail);
    var s := Print(n) + tail;
    assert s[|Print(n)|] == separator;
    assert s[|Print(n)| + 1..] == rest;
  }

  lemma {:induction false} LastRoundTrip(n: Timestamp, suffix: string)
    requires suffix == [] || !IsDigit(suffix[0])
    ensures LastField(Print(n) + suffix) == Some((n as int, suffix))
  {
    NumberRoundTrip(n, suffix);
    assert (Print(n) + suffix)[|Print(n)|..] == suffix;
  }

  lemma {:induction false} NoSeparator(n: Timestamp, c: char)
    ensures Field(Print(n), c) == None
  {
    NumberRoundTrip(n, "");
    assert Print(n) + "" == Print(n);
  }

  lemma {:induction false} SparseSplit(n: SparseName)
    ensures PrintSparse(n) == Print(n.min) + (['-'] + (Print(n.max) + if n.optimized then SPARSE_OPT_SUFFIX else ""))
  {
  }

  predicate Int64(n: int) {
    INT64_MIN <= n <= INT64_MAX
  }

  /** Printing and parsing a sparse name: the optimized ones come back if and only if the stray byte is zero. */
  lemma {:induction false} SparseRoundTrip(n: SparseName, stray: char)
    requires Int64(n.min) && Int64(n.max)
    ensures ParseSparse(PrintSparse(n), stray) == if n.optimized && stray != NUL then None else Some(n)
  {
    var suffix := if n.optimized then SPARSE_OPT_SUFFIX else "";
    SparseSplit(n);
    FieldRoundTrip(n.min, '-', Print(n.max) + suffix);
    LastRoundTrip(n.max, suffix);
  }

  lemma {:induction false} DenseRoundTrip(n: DenseName)
    requires Int64(n.start) && Int64(n.duration)
    ensures ParseDense(PrintDense(n)) == Some(n)
  {
    assert PrintDense(n) == Print(n.start) + (['@'] + Print(n.duration));
    FieldRoundTrip(n.start, '@', Print(n.duration));
    LastRoundTrip(n.duration, "");
    assert Print(n.duration) + "" == Print(n.duration);
  }

  /** A constant file's own name is accepted by no parser: after a reload the file is gone. */
  lemma {:induction false} ConstantNameLost(n: ConstantName, stray: char, strtod: string -> (Value, nat))
    requires Int64(n.start) && Int64(n.duration) && Int64(n.count)
    ensures ParseConstant(PrintConstant(n), strtod) == None
    ensures ParseDense(PrintConstant(n)) == None && ParseSparse(PrintConstant(n), stray) == None
  {
    var rest := Print(n.duration) + (['x'] + Print(n.count));
    assert PrintConstant(n) == Print(n.start) + (['@'] + rest);
    FieldRoundTrip(n.start, '@', rest);
    FieldRoundTrip(n.duration, 'x', Print(n.count));
    LastRoundTrip(n.duration, ['x'] + Print(n.count));
    NoSeparator(n.count, '=');
  }

  lemma {:induction false} Regroup(a: string, b: string, c: string, d: string)
    ensures a + "@" + b + "x" + c + "=" + d == a + (['@'] + (b + (['x'] + (c + (['='] + d)))))
  {
    Assoc(a + "@" + b + "x" + c, "=", d);
    Assoc(a + "@" + b + "x", c, ['='] + d);
    Assoc(a + "@" + b, "x", c + (['='] + d));
    Assoc(a + "@", b, ['x'] + (c + (['='] + d)));
    Assoc(a, "@", b + (['x'] + (c + (['='] + d))));
  }

  /** The name its comment describes would have come back. */
  lemma {:induction false} DocumentedConstantName(n: ConstantName, text: string, strtod: string -> (Value, nat))
    requires Int64(n.start) && Int64(n.duration) && Int64(n.count)
    ensures ParseConstant(PrintConstant(n) + "=" + text, strtod) == Some(n)
      <==> text != "" && n.value.Num? && strtod(text) == (n.value, |text|)
  {
    var rest2 := Print(n.count) + (['='] + text);
    var rest := Print(n.duration) + (['x'] + rest2);
    Regroup(Print(n.start), Print(n.duration), Print(n.count), text);
    FieldRoundTrip(n.start, '@', rest);
    FieldRoundTrip(n.duration, 'x', rest2);
    FieldRoundTrip(n.count, '=', text);
  }

  /** No string at all is accepted by two of the parsers. */
  lemma {:induction false} FormatsExclusive(s: string, stray: char, strtod: string -> (Value, nat))
    ensures ParseSparse(s, stray).Some? ==> ParseDense(s) == None && ParseConstant(s, strtod) == None
    ensures ParseDense(s).Some? ==> ParseConstant(s, strtod) == None
  {
    if Field(s, '@').Some? {
      var rest := Field(s, '@').value.1;
      var (v, k) := StrToLL(rest);
      if ParseDense(s).Some? {
        assert rest[k..] == "";
      }
    }
  }

  /** Different files have different names. */
  lemma {:induction false} SparseNamesDiffer(a: SparseName, b: SparseName)
    requires Int64(a.min) && Int64(a.max) && Int64(b.min) && Int64(b.max)
    ensures PrintSparse(a) == PrintSparse(b) <==> a == b
  {
    SparseRoundTrip(a, NUL);
    SparseRoundTrip(b, NUL);
  }
}
