/**
 * The Python 2 `str` and `posixpath` operations the import tasks rely on,
 * on strings of characters.
 */
module PyStr {

  /** `str.isspace` on one character of a Python 2 byte string. */
  predicate IsSpace(c: char) {
    c == ' ' || c == '\t' || c == '\n' || c == '\r' || c == '\U{000B}' || c == '\U{000C}'
  }

  /** `str.startswith`. */
  predicate StartsWith(s: string, prefix: string) {
    |prefix| <= |s| && s[..|prefix|] == prefix
  }

  // ---------------------------------------------------------------------------
  // strip, split() and split(' ')
  // ---------------------------------------------------------------------------

  function StripLeft(s: string): (r: string)
    ensures |r| <= |s| && r == s[|s| - |r|..]
    ensures forall k :: 0 <= k < |s| - |r| ==> IsSpace(s[k])
    ensures |r| == 0 || !IsSpace(r[0])
    decreases |s|
  {
    if |s| > 0 && IsSpace(s[0]) then StripLeft(s[1..]) else s
  }

  function StripRight(s: string): (r: string)
    ensures |r| <= |s| && r == s[..|r|]
    ensures forall k :: |r| <= k < |s| ==> IsSpace(s[k])
    ensures |r| == 0 || !IsSpace(r[|r| - 1])
    decreases |s|
  {
    if |s| > 0 && IsSpace(s[|s| - 1]) then StripRight(s[..|s| - 1]) else s
  }

  /** How many whitespace characters `s` starts with. */
  function LeadingSpaces(s: string): (n: nat)
    ensures n <= |s|
  {
    |s| - |StripLeft(s)|
  }

  /** `str.strip()`: `s` without its leading and trailing whitespace. */
  function Strip(s: string): (r: string)
    ensures |r| == 0 || (!IsSpace(r[0]) && !IsSpace(r[|r| - 1]))
    ensures LeadingSpaces(s) + |r| <= |s| && r == s[LeadingSpaces(s)..LeadingSpaces(s) + |r|]
    ensures forall k :: 0 <= k < LeadingSpaces(s) ==> IsSpace(s[k])
    ensures forall k :: LeadingSpaces(s) + |r| <= k < |s| ==> IsSpace(s[k])
  {
    var l := StripLeft(s);
    var r := StripRight(l);
    var i := |s| - |l|;
    assert l == s[i..];
    assert r == l[..|r|];
    assert |r| > 0 ==> r[0] == l[0] && !IsSpace(l[0]);
    forall k | i + |r| <= k < |s|
      ensures IsSpace(s[k])
    {
      assert s[k] == l[k - i];
    }
    r
  }

  /** Whitespace around a word does not change what it strips to. */
  lemma {:induction false} StripPadded(w: string, left: string, right: string)
    requires |w| > 0 && !IsSpace(w[0]) && !IsSpace(w[|w| - 1])
    requires forall k :: 0 <= k < |left| ==> IsSpace(left[k])
    requires forall k :: 0 <= k < |right| ==> IsSpace(right[k])
    ensures Strip(left + w + right) == w
    decreases |left| + |right|
  {
    var s := left + w + right;
    assert (left + w + right)[|left|] == w[0];
    if |left| > 0 {
      assert s[0] == left[0];
      assert s[1..] == left[1..] + w + right;
      StripPadded(w, left[1..], right);
      assert StripLeft(s) == StripLeft(s[1..]);
    } else if |right| > 0 {
      assert s == w + right;
      assert StripLeft(s) == s;
      assert s[|s| - 1] == right[|right| - 1];
      assert s[..|s| - 1] == w + right[..|right| - 1];
      StripPadded(w, left, right[..|right| - 1]);
      assert left + w + right[..|right| - 1] == w + right[..|right| - 1];
      assert StripLeft(s[..|s| - 1]) == s[..|s| - 1];
    } else {
      assert s == w;
    }
  }

  /** Length of the leading run of non-whitespace characters. */
  function WordLength(s: string): (n: nat)
    ensures n <= |s|
    ensures forall i :: 0 <= i < n ==> !IsSpace(s[i])
    ensures n == |s| || IsSpace(s[n])
    decreases |s|
  {
    if |s| == 0 || IsSpace(s[0]) then 0 else 1 + WordLength(s[1..])
  }

  /** `str.split()` with no separator: the maximal runs of non-whitespace characters, in order. */
  function Fields(s: string): (r: seq<string>)
    ensures forall j :: 0 <= j < |r| ==> |r[j]| > 0
    ensures forall j, i :: 0 <= j < |r| && 0 <= i < |r[j]| ==> !IsSpace(r[j][i])
    ensures |r| == 0 <==> forall i :: 0 <= i < |s| ==> IsSpace(s[i])
    decreases |s|
  {
    if |s| == 0 then []
    else if IsSpace(s[0]) then
      var r := Fields(s[1..]);
      assert forall i :: 1 <= i < |s| ==> s[i] == s[1..][i - 1];
      r
    else
      var n := WordLength(s);
      [s[..n]] + Fields(s[n..])
  }

  /** Characters after the end of the first word do not change its length. */
  lemma {:induction false} WordLengthConcat(a: string, b: string)
    requires WordLength(a) < |a| || |b| == 0 || IsSpace(b[0])
    ensures WordLength(a + b) == WordLength(a)
    decreases |a|
  {
    if |a| > 0 && !IsSpace(a[0]) {
      assert (a + b)[1..] == a[1..] + b;
      WordLengthConcat(a[1..], b);
    }
  }

  /** A non-empty run of non-whitespace characters is a single field. */
  lemma FieldsOfWord(w: string)
    requires |w| > 0 && forall i :: 0 <= i < |w| ==> !IsSpace(w[i])
    ensures Fields(w) == [w]
  {
    assert WordLength(w) == |w|;
    assert w[..|w|] == w && w[|w|..] == [];
  }

  /** A whitespace character separates fields: the fields of the two sides, in order. */
  lemma {:induction false} FieldsSplit(a: string, c: char, b: string)
    requires IsSpace(c)
    ensures Fields(a + [c] + b) == Fields(a) + Fields(b)
    decreases |a|
  {
    var s := a + [c] + b;
    if |a| == 0 {
      assert s[0] == c && s[1..] == b;
    } else if IsSpace(a[0]) {
      assert s[0] == a[0] && s[1..] == a[1..] + [c] + b;
      FieldsSplit(a[1..], c, b);
    } else {
      var n := WordLength(a);
      assert WordLength(s) == n by {
        assert s == a + ([c] + b);
        WordLengthConcat(a, [c] + b);
      }
      assert s[..n] == a[..n] && s[n..] == a[n..] + [c] + b;
      calc {
        Fields(s);
        [s[..n]] + Fields(s[n..]);
        { FieldsSplit(a[n..], c, b); }
        [a[..n]] + (Fields(a[n..]) + Fields(b));
      }
    }
  }

  /** Index of the first occurrence of `c` in `s`, or `|s|`. */
  function IndexOf(s: string, c: char): (i: nat)
    ensures i <= |s|
    ensures forall k :: 0 <= k < i ==> s[k] != c
    ensures i < |s| ==> s[i] == c
    decreases |s|
  {
    if |s| == 0 then 0 else if s[0] == c then 0 else 1 + IndexOf(s[1..], c)
  }

  /** `str.split(c)` with a one-character separator: the pieces between the occurrences of `c`. */
  function SplitOn(s: string, c: char): (r: seq<string>)
    ensures |r| > 0
    ensures forall j :: 0 <= j < |r| ==> c !in r[j]
    decreases |s|
  {
    var i := IndexOf(s, c);
    if i == |s| then [s]
    else [s[..i]] + SplitOn(s[i + 1..], c)
  }

  /** Splitting a piece without the separator, followed by the separator, peels that piece off. */
  lemma SplitOnConcat(a: string, c: char, b: string)
    requires c !in a
    ensures SplitOn(a + [c] + b, c) == [a] + SplitOn(b, c)
  {
    var s := a + [c] + b;
    var i := IndexOf(s, c);
    assert s[|a|] == c;
    assert forall k :: 0 <= k < |a| ==> s[k] == a[k] && a[k] in a;
    assert i == |a|;
    assert s[..i] == a;
    assert s[i + 1..] == b;
  }

  lemma SplitOnNone(a: string, c: char)
    requires c !in a
    ensures SplitOn(a, c) == [a]
  {
    assert forall k :: 0 <= k < |a| ==> a[k] in a;
  }

  // ---------------------------------------------------------------------------
  // posixpath
  // ---------------------------------------------------------------------------

  /** `p.rfind('/') + 1`: where the last component of a path starts. */
  function AfterLastSlash(p: string): (i: nat)
    ensures i <= |p|
    ensures i > 0 ==> p[i - 1] == '/'
    ensures forall k :: i <= k < |p| ==> p[k] != '/'
    decreases |p|
  {
    if |p| == 0 then 0
    else if p[|p| - 1] == '/' then |p|
    else AfterLastSlash(p[..|p| - 1])
  }

  /** `posixpath.basename`. */
  function Basename(p: string): (r: string)
    ensures '/' !in r
    ensures |r| <= |p| && r == p[|p| - |r|..]
    ensures |r| == |p| || p[|p| - |r| - 1] == '/'
  {
    var r := p[AfterLastSlash(p)..];
    assert forall k :: 0 <= k < |r| ==> r[k] == p[AfterLastSlash(p) + k];
    r
  }

  function AllSlashes(s: string): bool {
    forall k :: 0 <= k < |s| ==> s[k] == '/'
  }

  function StripTrailingSlashes(s: string): (r: string)
    ensures |r| <= |s| && r == s[..|r|]
    ensures |r| == 0 || r[|r| - 1] != '/'
    decreases |s|
  {
    if |s| > 0 && s[|s| - 1] == '/' then StripTrailingSlashes(s[..|s| - 1]) else s
  }

  /** `posixpath.dirname`: everything before the last component, trailing slashes dropped unless it is only slashes. */
  function Dirname(p: string): string {
    var head := p[..AfterLastSlash(p)];
    if |head| > 0 && !AllSlashes(head) then StripTrailingSlashes(head) else head
  }

  /** `posixpath.join(a, b)`: an absolute `b` replaces `a`; otherwise a slash separates them unless `a` is empty or already ends with one. */
  function Join(a: string, b: string): string {
    if |b| > 0 && b[0] == '/' then b
    else if |a| == 0 || a[|a| - 1] == '/' then a + b
    else a + "/" + b
  }

  /** Joining a non-empty name keeps its last character last. */
  lemma JoinEndsLikeName(a: string, b: string)
    requires |b| > 0
    ensures |Join(a, b)| > 0 && Join(a, b)[|Join(a, b)| - 1] == b[|b| - 1]
  {
  }

  /** What follows the last slash is the basename. */
  lemma BasenameAfterSlash(a: string, b: string)
    requires '/' !in b
    ensures Basename(a + "/" + b) == b
  {
    var j := a + "/" + b;
    assert j[|a|] == '/';
    assert forall k :: |a| + 1 <= k < |j| ==> j[k] == b[k - |a| - 1] && b[k - |a| - 1] in b;
    assert AfterLastSlash(j) == |a| + 1;
  }

  /** Joining a bare file name makes it the basename of the result. */
  lemma BasenameOfJoin(a: string, b: string)
    requires '/' !in b
    ensures Basename(Join(a, b)) == b
  {
    var j := Join(a, b);
    var pre := j[..|j| - |b|];
    assert j == pre + b;
    assert |pre| > 0 ==> j[|pre| - 1] == '/';
    assert forall k :: |pre| <= k < |j| ==> j[k] == b[k - |pre|] && b[k - |pre|] in b;
    assert AfterLastSlash(j) == |pre|;
  }

  /** Joining a bare file name onto a directory that does not end with a slash: the directory is the result's dirname. */
  lemma DirnameOfJoin(a: string, b: string)
    requires '/' !in b && |a| > 0 && a[|a| - 1] != '/'
    ensures Dirname(Join(a, b)) == a
  {
    var j := Join(a, b);
    assert |b| == 0 || b[0] in b;
    assert j == a + "/" + b;
    assert j[|a|] == '/';
    assert forall k :: |a| + 1 <= k < |j| ==> j[k] == b[k - |a| - 1] && b[k - |a| - 1] in b;
    assert AfterLastSlash(j) == |a| + 1;
    var head := j[..|a| + 1];
    assert head == a + "/";
    assert head[|a| - 1] == a[|a| - 1];
    assert !AllSlashes(head);
    assert head[..|head| - 1] == a;
    assert StripTrailingSlashes(a) == a;
  }

  // ---------------------------------------------------------------------------
  // str(n) for integers
  // ---------------------------------------------------------------------------

  function DigitChar(d: nat): char
    requires d < 10
  {
    "0123456789"[d]
  }

  function DigitValue(c: char): int {
    if '0' <= c <= '9' then c as int - '0' as int else -1
  }

  /** The decimal digits of `n`, most significant first, without leading zeros. */
  function NatString(n: nat): (r: string)
    ensures |r| > 0
    ensures forall k :: 0 <= k < |r| ==> 0 <= DigitValue(r[k]) < 10
    decreases n
  {
    if n < 10 then [DigitChar(n)] else NatString(n / 10) + [DigitChar(n % 10)]
  }

  /** `str(n)` for a Python integer. */
  function DecimalString(n: int): (r: string)
    ensures |r| > 0
  {
    if n < 0 then "-" + NatString(-n) else NatString(n)
  }

  /** The value of a string of decimal digits. */
  function DigitsValue(s: string): int
    decreases |s|
  {
    if |s| == 0 then 0 else DigitsValue(s[..|s| - 1]) * 10 + DigitValue(s[|s| - 1])
  }

  /** `int(s)` on what `str` produces. */
  function ParseDecimal(s: string): int {
    if |s| > 0 && s[0] == '-' then -DigitsValue(s[1..]) else DigitsValue(s)
  }

  lemma {:induction false} NatStringValue(n: nat)
    ensures DigitsValue(NatString(n)) == n
    decreases n
  {
    if n >= 10 {
      NatStringValue(n / 10);
      var s := NatString(n);
      assert s[..|s| - 1] == NatString(n / 10);
    }
  }

  /** `str` loses nothing: the integer can be read back from its decimal form. */
  lemma DecimalRoundTrip(n: int)
    ensures ParseDecimal(DecimalString(n)) == n
  {
    if n < 0 {
      NatStringValue(-n);
      var s := "-" + NatString(-n);
      assert s[1..] == NatString(-n);
    } else {
      NatStringValue(n);
      var s := NatString(n);
      assert DigitValue(s[0]) >= 0;
    }
  }

  /** Distinct integers have distinct decimal forms. */
  lemma DecimalStringInjective(a: int, b: int)
    requires DecimalString(a) == DecimalString(b)
    ensures a == b
  {
    DecimalRoundTrip(a);
    DecimalRoundTrip(b);
  }
}
