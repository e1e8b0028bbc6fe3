/** The parts of Node's `path` module and of template-string number rendering that the
    file-share server relies on when it names uploaded files. Names handled here are single
    path components: they contain no '/' (the multipart parser strips directory parts from
    client-supplied file names). Joining and normalising paths is in `Posix`. */
module Paths {

  /** Index of the last '.' of s, or -1 when s has none. */
  function LastDot(s: string): (i: int)
    ensures -1 <= i < |s|
    ensures i >= 0 ==> s[i] == '.'
    ensures forall j :: i < j < |s| ==> s[j] != '.'
  {
    if |s| == 0 then -1
    else if s[|s| - 1] == '.' then |s| - 1
    else LastDot(s[..|s| - 1])
  }

  /** path.extname: the extension runs from the last '.' to the end of the name, except that
      a dot in first position does not start an extension and ".." has none. */
  function Ext(name: string): (e: string)
    ensures |e| < |name| || e == ""
    ensures name[|name| - |e|..] == e
    ensures e != "" ==> e[0] == '.' && forall j :: 0 < j < |e| ==> e[j] != '.'
    ensures e == "" <==> name == ".." || forall j :: 0 < j < |name| ==> name[j] != '.'
  {
    var i := LastDot(name);
    if i <= 0 || name == ".." then "" else name[i..]
  }

  /** path.basename(name, suffix) for a name without separators: the suffix is cut off when
      the name ends with it and is not the whole name; a suffix equal to the name gives "". */
  function BaseName(name: string, suffix: string): string
  {
    if suffix == "" || |suffix| > |name| then name
    else if suffix == name then ""
    else if name[|name| - |suffix|..] == suffix then name[..|name| - |suffix|]
    else name
  }

  /** The stem that the server reads with path.basename(name, path.extname(name)) is the
      name with its extension cut off, and the two put back together give the name. */
  lemma StemAndExt(name: string)
    ensures BaseName(name, Ext(name)) + Ext(name) == name
    ensures Ext(name) != "" ==> |BaseName(name, Ext(name))| >= 1
  {
    var e := Ext(name);
    if e != "" {
      assert name[|name| - |e|..] == e;
      assert name[..|name| - |e|] + name[|name| - |e|..] == name;
    }
  }

  /** The character of a decimal digit. */
  function DigitChar(d: nat): (c: char)
    requires d < 10
    ensures '0' <= c <= '9'
  {
    (('0' as int) + d) as char
  }

  /** The value of a decimal digit character. */
  function DigitValue(c: char): (d: nat)
    requires '0' <= c <= '9'
    ensures d < 10
  {
    (c as int) - ('0' as int)
  }

  /** `${n}` for a non-negative integer: its decimal digits, without leading zeros. */
  function Decimal(n: nat): (s: string)
    ensures |s| >= 1
    ensures forall j :: 0 <= j < |s| ==> '0' <= s[j] <= '9'
    ensures s[0] == '0' <==> n == 0
    ensures s[0] == '0' ==> |s| == 1
    decreases n
  {
    if n < 10 then [DigitChar(n)] else Decimal(n / 10) + [DigitChar(n % 10)]
  }

  /** Reading decimal digits back as a number. */
  function DecimalValue(s: string): nat
    requires forall j :: 0 <= j < |s| ==> '0' <= s[j] <= '9'
  {
    if s == [] then 0 else DecimalValue(s[..|s| - 1]) * 10 + DigitValue(s[|s| - 1])
  }

  /** Rendering a counter and reading it back gives the counter. */
  lemma {:induction false} DecimalRoundTrip(n: nat)
    ensures DecimalValue(Decimal(n)) == n
    decreases n
  {
    var s := Decimal(n);
    if n < 10 {
      assert s[..0] == [];
    } else {
      DecimalRoundTrip(n / 10);
      assert s[..|s| - 1] == Decimal(n / 10);
      assert DigitValue(s[|s| - 1]) == n % 10;
    }
  }

  /** Distinct counters render as distinct strings. */
  lemma DecimalInjective(m: nat, n: nat)
    requires m != n
    ensures Decimal(m) != Decimal(n)
  {
    DecimalRoundTrip(m);
    DecimalRoundTrip(n);
  }

  function Pow10(k: nat): (p: nat)
    ensures p >= 1
  {
    if k == 0 then 1 else 10 * Pow10(k - 1)
  }

  /** A counter of at least 10^k has more than k digits. */
  lemma {:induction false} DecimalLength(n: nat, k: nat)
    requires n >= Pow10(k)
    ensures |Decimal(n)| > k
    decreases k
  {
    if k > 0 {
      assert n >= 10 * Pow10(k - 1);
      assert n / 10 >= Pow10(k - 1);
      DecimalLength(n / 10, k - 1);
    }
  }
}
