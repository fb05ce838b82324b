/** The few pieces of `java.lang.String` behaviour the core depends on, written out:
    `isBlank`, `trim`, `split(",")`, ASCII case folding for the repositories'
    `IgnoreCase` queries, `Collectors.joining`, `Long.toString`, and the rendering
    of a possibly-null string by string concatenation. */
module Text {
  import opened Wrappers

  /** `Character.isWhitespace`: the Unicode space, line and paragraph separators
      other than the non-breaking ones, and the ASCII controls 9-13 and 28-31. */
  predicate IsJavaWhitespace(c: char) {
    || ('\t' <= c <= '\r')
    || ('\U{1C}' <= c <= '\U{1F}')
    || c == ' '
    || c == '\U{1680}'
    || ('\U{2000}' <= c <= '\U{2006}')
    || ('\U{2008}' <= c <= '\U{200A}')
    || c == '\U{2028}' || c == '\U{2029}' || c == '\U{205F}' || c == '\U{3000}'
  }

  /** `String.isBlank`: empty or whitespace only. */
  predicate IsBlank(s: string)
    ensures s == "" ==> IsBlank(s)
    ensures (exists i :: 0 <= i < |s| && ' ' < s[i] <= '~') ==> !IsBlank(s)
  {
    forall i :: 0 <= i < |s| ==> IsJavaWhitespace(s[i])
  }

  /** `s == null || s.isBlank()`, the test every blank check in the core spells out. */
  predicate NullOrBlank(s: Option<string>) {
    s.None? || IsBlank(s.value)
  }

  /** What `"..." + s` appends for a possibly-null string: Java writes "null". */
  function Str(s: Option<string>): string {
    match s
    case Some(v) => v
    case None => "null"
  }

  // ---------------------------------------------------------------- trim

  /** `String.trim` drops every leading and trailing character up to U+0020. */
  predicate IsTrimmable(c: char) {
    c <= ' '
  }

  /** Number of trimmable characters at the front of `s`. */
  function LeadingTrimmed(s: string): (k: nat)
    ensures k <= |s|
    ensures forall i :: 0 <= i < k ==> IsTrimmable(s[i])
    ensures k < |s| ==> !IsTrimmable(s[k])
  {
    if |s| == 0 || !IsTrimmable(s[0]) then 0 else 1 + LeadingTrimmed(s[1..])
  }

  /** Length of `s` without its trailing trimmable characters. */
  function TrailingKept(s: string): (k: nat)
    ensures k <= |s|
    ensures forall i :: k <= i < |s| ==> IsTrimmable(s[i])
    ensures 0 < k ==> !IsTrimmable(s[k - 1])
  {
    if |s| == 0 || !IsTrimmable(s[|s| - 1]) then |s| else TrailingKept(s[..|s| - 1])
  }

  function Trim(s: string): (t: string)
    ensures |t| <= |s|
    ensures t != "" ==> !IsTrimmable(t[0]) && !IsTrimmable(t[|t| - 1])
  {
    var lo := LeadingTrimmed(s);
    var hi := TrailingKept(s);
    if hi <= lo then "" else s[lo..hi]
  }

  /** `t` is the infix of `s` at `lo`, and only trimmable characters lie around it. */
  predicate TrimmedAt(s: string, t: string, lo: int) {
    && 0 <= lo <= |s| - |t|
    && s[lo..lo + |t|] == t
    && (forall i :: 0 <= i < lo ==> IsTrimmable(s[i]))
    && (forall i :: lo + |t| <= i < |s| ==> IsTrimmable(s[i]))
  }

  /** `trim` returns the infix of `s` that starts and ends with a non-trimmable
      character, and what it drops on either side is trimmable. */
  lemma TrimSpec(s: string)
    ensures var t := Trim(s);
      && (t == "" <==> forall i :: 0 <= i < |s| ==> IsTrimmable(s[i]))
      && (t != "" ==> !IsTrimmable(t[0]) && !IsTrimmable(t[|t| - 1]))
      && (t != "" ==> exists lo :: TrimmedAt(s, t, lo))
  {
    var lo, hi := LeadingTrimmed(s), TrailingKept(s);
    if hi <= lo {
      // a non-trimmable character at `lo` would have to lie at or after `hi`
      assert lo == |s|;
    } else {
      var t := s[lo..hi];
      assert Trim(s) == t;
      assert t[0] == s[lo];
      assert t[|t| - 1] == s[hi - 1];
      assert TrimmedAt(s, t, lo);
    }
  }

  lemma {:induction false} TrimIdempotent(s: string)
    ensures Trim(Trim(s)) == Trim(s)
  {
    TrimSpec(s);
    var t := Trim(s);
    if t != "" {
      assert LeadingTrimmed(t) == 0;
      assert TrailingKept(t) == |t|;
      assert t[0..|t|] == t;
    }
  }

  // ---------------------------------------------------------------- split(",")

  /** Every comma-separated piece of `s`, empty ones included: one more piece than
      there are commas. */
  function Pieces(s: string): (r: seq<string>)
    ensures |r| >= 1
    ensures forall j :: 0 <= j < |r| ==> ',' !in r[j]
  {
    if |s| == 0 then [""]
    else if s[0] == ',' then [""] + Pieces(s[1..])
    else
      var rest := Pieces(s[1..]);
      [[s[0]] + rest[0]] + rest[1..]
  }

  /** `split` with limit 0 removes trailing empty strings. */
  function DropTrailingEmpty(xs: seq<string>): (r: seq<string>)
    ensures r <= xs
  {
    if |xs| == 0 then []
    else if xs[|xs| - 1] == "" then DropTrailingEmpty(xs[..|xs| - 1])
    else xs
  }

  /** `s.split(",")`: a string without a comma splits into itself; otherwise into
      its pieces without the trailing empty ones. */
  function SplitComma(s: string): (r: seq<string>)
    ensures 1 <= |r| || ',' in s
    ensures forall j :: 0 <= j < |r| ==> ',' !in r[j]
  {
    if ',' !in s then [s] else DropTrailingEmpty(Pieces(s))
  }

  /** Index of the first comma of `s`, or `|s|` when there is none. */
  function FirstComma(s: string): (k: nat)
    ensures k <= |s|
    ensures forall i :: 0 <= i < k ==> s[i] != ','
    ensures k < |s| ==> s[k] == ','
  {
    if |s| == 0 || s[0] == ',' then 0 else 1 + FirstComma(s[1..])
  }

  predicate AllCommas(s: string) {
    forall i :: 0 <= i < |s| ==> s[i] == ','
  }

  lemma {:induction false} PiecesHead(s: string)
    ensures Pieces(s)[0] == s[..FirstComma(s)]
  {
    if |s| > 0 && s[0] != ',' {
      PiecesHead(s[1..]);
    }
  }

  lemma {:induction false} PiecesAllEmpty(s: string)
    ensures (forall j :: 0 <= j < |Pieces(s)| ==> Pieces(s)[j] == "") <==> AllCommas(s)
  {
    if |s| > 0 {
      PiecesAllEmpty(s[1..]);
      if s[0] == ',' {
        assert Pieces(s) == [""] + Pieces(s[1..]);
        if AllCommas(s) {
          assert AllCommas(s[1..]) by {
            forall i | 0 <= i < |s[1..]| ensures s[1..][i] == ',' { assert s[1..][i] == s[i + 1]; }
          }
        }
        if AllCommas(s[1..]) {
          forall i | 0 <= i < |s| ensures s[i] == ',' {
            if i > 0 { assert s[i] == s[1..][i - 1]; }
          }
        }
        forall j | 0 <= j < |Pieces(s[1..])| ensures Pieces(s)[j + 1] == Pieces(s[1..])[j] { }
      } else {
        assert Pieces(s)[0] != "";
      }
    }
  }

  lemma {:induction false} DropTrailingEmptySpec(xs: seq<string>)
    ensures var d := DropTrailingEmpty(xs);
      && (d == [] <==> forall j :: 0 <= j < |xs| ==> xs[j] == "")
      && (d != [] ==> d[0] == xs[0])
  {
    if |xs| > 0 && xs[|xs| - 1] == "" {
      DropTrailingEmptySpec(xs[..|xs| - 1]);
      var d := DropTrailingEmpty(xs);
      if d == [] {
        forall j | 0 <= j < |xs| ensures xs[j] == "" {
          if j < |xs| - 1 { assert xs[j] == xs[..|xs| - 1][j]; }
        }
      }
    }
  }

  /** `header.split(",")` on a non-empty header has no element exactly when the
      header is made of commas only; otherwise its first element is the text before
      the first comma. */
  lemma SplitCommaFirst(s: string)
    requires s != ""
    ensures SplitComma(s) == [] <==> AllCommas(s)
    ensures SplitComma(s) != [] ==> SplitComma(s)[0] == s[..FirstComma(s)]
  {
    if ',' in s {
      DropTrailingEmptySpec(Pieces(s));
      PiecesAllEmpty(s);
      PiecesHead(s);
    } else {
      assert s[0] != ',';
      assert FirstComma(s) == |s|;
      assert s[..|s|] == s;
    }
  }

  // ---------------------------------------------------------------- case folding

  function UpperAscii(c: char): char {
    if 'a' <= c <= 'z' then (c as int - 32) as char else c
  }

  function UpperAll(s: string): (r: string)
    ensures |r| == |s|
  {
    seq(|s|, i requires 0 <= i < |s| => UpperAscii(s[i]))
  }

  /** The repositories' `IgnoreCase` comparison, `upper(a) = upper(b)`. */
  predicate EqualsIgnoreCase(a: string, b: string) {
    UpperAll(a) == UpperAll(b)
  }

  /** `p` occurs in `s` as a contiguous piece. */
  predicate IsInfix(p: string, s: string)
    decreases |s|
  {
    p <= s || (|s| > 0 && IsInfix(p, s[1..]))
  }

  /** The repositories' `ContainingIgnoreCase` comparison, `upper(s) like upper('%' + p + '%')`. */
  predicate ContainsIgnoreCase(s: string, p: string) {
    IsInfix(UpperAll(p), UpperAll(s))
  }

  /** A piece found at position `k` makes `p` an infix of `s`. */
  lemma {:induction false} InfixAt(p: string, s: string, k: nat)
    requires k + |p| <= |s| && s[k..k + |p|] == p
    ensures IsInfix(p, s)
  {
    if k == 0 {
      assert p <= s;
    } else {
      assert s[1..][k - 1..k - 1 + |p|] == s[k..k + |p|];
      InfixAt(p, s[1..], k - 1);
    }
  }

  /** An infix sits at some position. */
  lemma {:induction false} InfixWitness(p: string, s: string) returns (k: nat)
    requires IsInfix(p, s)
    ensures k + |p| <= |s| && s[k..k + |p|] == p
  {
    if p <= s {
      k := 0;
    } else {
      var j := InfixWitness(p, s[1..]);
      assert s[1..][j..j + |p|] == s[j + 1..j + 1 + |p|];
      k := j + 1;
    }
  }

  // ---------------------------------------------------------------- joining

  /** `Collectors.joining(sep)`. */
  function Join(xs: seq<string>, sep: string): string {
    if |xs| == 0 then ""
    else if |xs| == 1 then xs[0]
    else xs[0] + sep + Join(xs[1..], sep)
  }

  /** Appending one more element appends the separator and the element. */
  lemma {:induction false} JoinSnoc(xs: seq<string>, x: string, sep: string)
    requires xs != []
    ensures Join(xs + [x], sep) == Join(xs, sep) + sep + x
  {
    if |xs| == 1 {
      assert xs + [x] == [xs[0], x];
    } else {
      assert (xs + [x])[1..] == xs[1..] + [x];
      JoinSnoc(xs[1..], x, sep);
    }
  }

  // ---------------------------------------------------------------- numbers

  function DigitChar(d: nat): char
    requires d < 10
  {
    ('0' as int + d) as char
  }

  function NatToString(n: nat): string {
    if n < 10 then [DigitChar(n)] else NatToString(n / 10) + [DigitChar(n % 10)]
  }

  /** `Long.toString`, as string concatenation renders an id. */
  function IntToString(n: int): string {
    if n < 0 then "-" + NatToString(-n) else NatToString(n)
  }
}
