/** Shared vocabulary: identifiers, optional values, HTTP-style responses,
    the JavaScript string operations the code relies on, and Math.round. */
module Common {

  /** A document id (a MongoDB ObjectId, compared by value). */
  type Id = nat

  datatype Option<+T> = None | Some(value: T) {
    function GetOr(default: T): T {
      match this
      case Some(v) => v
      case None => default
    }
  }

  /** What a handler sends back: a status code with a body, or a status code with a message. */
  datatype Response<+T> = Success(code: nat, body: T) | Failure(code: nat, message: string) {
    function Status(): nat {
      match this
      case Success(c, _) => c
      case Failure(c, _) => c
    }
  }

  /** The outcome of Mongoose schema validation: the document to store, or the
      messages of the failing paths in schema order. */
  datatype Checked<+T> = Valid(value: T) | Invalid(messages: seq<string>)

  /** `messages.join(', ')` */
  function Join(messages: seq<string>): (r: string)
    ensures messages == [] ==> r == ""
    ensures |messages| == 1 ==> r == messages[0]
  {
    if messages == [] then ""
    else if |messages| == 1 then messages[0]
    else messages[0] + ", " + Join(messages[1..])
  }

  /** JavaScript truthiness of an optional string: undefined, null and '' are falsy. */
  predicate Truthy(s: Option<string>) {
    s.Some? && s.value != ""
  }

  /** `s.startsWith(p)` */
  predicate StartsWith(s: string, p: string) {
    |p| <= |s| && s[..|p|] == p
  }

  /** `s.endsWith(x)` */
  predicate EndsWith(s: string, x: string) {
    |x| <= |s| && s[|s| - |x|..] == x
  }

  /** `sub` occurs in `s` starting at index `i`. */
  predicate InfixAt(s: string, sub: string, i: nat) {
    i + |sub| <= |s| && s[i..i + |sub|] == sub
  }

  /** `s.includes(sub)` */
  predicate Contains(s: string, sub: string) {
    exists i: nat | i <= |s| :: InfixAt(s, sub, i)
  }

  lemma {:induction false} ContainsInfix(a: string, sub: string, b: string)
    ensures Contains(a + sub + b, sub)
  {
    var s := a + sub + b;
    assert s[|a|..|a| + |sub|] == sub;
    assert InfixAt(s, sub, |a|);
  }

  lemma {:induction false} ContainsExtend(s: string, t: string, sub: string)
    requires Contains(s, sub)
    ensures Contains(s + t, sub)
  {
    var i: nat :| i <= |s| && InfixAt(s, sub, i);
    assert (s + t)[i..i + |sub|] == s[i..i + |sub|];
    assert InfixAt(s + t, sub, i);
  }

  lemma EmptyContained(s: string)
    ensures Contains(s, "")
  {
    assert InfixAt(s, "", 0);
  }

  /** ASCII `toLowerCase` of one character. */
  function LowerChar(c: char): char {
    if 'A' <= c <= 'Z' then (c as int + 32) as char else c
  }

  /** `s.toLowerCase()` restricted to ASCII letters. */
  function Lower(s: string): (r: string)
    ensures |r| == |s|
    ensures forall i :: 0 <= i < |s| ==> r[i] == LowerChar(s[i])
  {
    seq(|s|, i requires 0 <= i < |s| => LowerChar(s[i]))
  }

  /** The line terminators: the characters `.` does not match without the
      `s` flag. */
  predicate IsLineTerminator(c: char) {
    c == '\n' || c == '\r' || c == '\U{2028}' || c == '\U{2029}'
  }

  /** The white space `String.prototype.trim` removes and `parseInt` skips:
      tab, vertical tab, form feed, the byte order mark, the space separators
      of Unicode (space, no-break space, U+1680, U+2000 to U+200A, U+202F,
      U+205F, U+3000) and the line terminators. */
  predicate IsSpace(c: char) {
    || c == '\t' || c == '\U{B}' || c == '\U{C}' || c == '\U{FEFF}'
    || c == ' ' || c == '\U{A0}' || c == '\U{1680}' || ('\U{2000}' <= c <= '\U{200A}')
    || c == '\U{202F}' || c == '\U{205F}' || c == '\U{3000}'
    || IsLineTerminator(c)
  }

  function TrimStart(s: string): (r: string)
    ensures |r| <= |s|
    ensures r == [] || !IsSpace(r[0])
  {
    if s != [] && IsSpace(s[0]) then TrimStart(s[1..]) else s
  }

  function TrimEnd(s: string): (r: string)
    ensures |r| <= |s|
    ensures r == [] || !IsSpace(r[|r| - 1])
  {
    if s != [] && IsSpace(s[|s| - 1]) then TrimEnd(s[..|s| - 1]) else s
  }

  /** `s` has no white space at either end, so `s.trim()` leaves it as it is. */
  predicate Trimmed(s: string) {
    s == [] || (!IsSpace(s[0]) && !IsSpace(s[|s| - 1]))
  }

  /** `s.trim()` */
  function Trim(s: string): (r: string)
    ensures |r| <= |s|
    ensures Trimmed(r)
  {
    TrimEndIsPrefix(TrimStart(s));
    TrimEnd(TrimStart(s))
  }

  /** `trimEnd` only drops characters from the end. */
  lemma {:induction false} TrimEndIsPrefix(s: string)
    ensures TrimEnd(s) == s[..|TrimEnd(s)|]
    decreases |s|
  {
    if s != [] && IsSpace(s[|s| - 1]) {
      TrimEndIsPrefix(s[..|s| - 1]);
    }
  }

  /** Trimming a string with no white space at either end leaves it as it is. */
  lemma TrimOfTrimmed(s: string)
    requires Trimmed(s)
    ensures Trim(s) == s
  {
    if s != [] {
      assert TrimStart(s) == s;
      assert TrimEnd(s) == s;
    }
  }

  /** `Math.round(num / den)` for a non-negative quotient, computed exactly:
      the nearest integer, halves rounded up. */
  function RoundHalfUp(num: nat, den: nat): (r: nat)
    requires den > 0
    ensures 2 * num < (2 * r + 1) * den
    ensures (2 * r - 1) * den <= 2 * num
  {
    (2 * num + den) / (2 * den)
  }

  /** The number of elements of `s` that satisfy `p`. */
  function CountWhere<T>(s: seq<T>, p: T -> bool): (n: nat)
    ensures n <= |s|
  {
    if s == [] then 0 else (if p(s[0]) then 1 else 0) + CountWhere(s[1..], p)
  }

  /** Counting under a predicate that is the disjoint union of two others adds up. */
  lemma {:induction false} CountDisjointUnion<T>(s: seq<T>, p: T -> bool, q: T -> bool, r: T -> bool)
    requires forall x :: r(x) == (p(x) || q(x))
    requires forall x :: !(p(x) && q(x))
    ensures CountWhere(s, r) == CountWhere(s, p) + CountWhere(s, q)
  {
    if s != [] {
      CountDisjointUnion(s[1..], p, q, r);
    }
  }

  /** A predicate that implies another on the elements never counts more of them. */
  lemma {:induction false} CountMonotone<T>(s: seq<T>, p: T -> bool, q: T -> bool)
    requires forall x :: x in s && p(x) ==> q(x)
    ensures CountWhere(s, p) <= CountWhere(s, q)
  {
    if s != [] {
      CountMonotone(s[1..], p, q);
    }
  }

  /** No element satisfies the predicate, so none is counted. */
  lemma {:induction false} CountNone<T>(s: seq<T>, p: T -> bool)
    requires forall x :: x in s ==> !p(x)
    ensures CountWhere(s, p) == 0
  {
    if s != [] {
      assert s[0] in s;
      CountNone(s[1..], p);
    }
  }

  /** `s.filter(p)` */
  function Filter<T>(s: seq<T>, p: T -> bool): (r: seq<T>)
    ensures |r| == CountWhere(s, p)
  {
    if s == [] then [] else (if p(s[0]) then [s[0]] else []) + Filter(s[1..], p)
  }

  /** An element of a filtered sequence comes from the original. */
  lemma FilteredFrom<T>(s: seq<T>, p: T -> bool, y: T)
    requires y in Filter(s, p)
    ensures y in s && p(y)
  {
    FilterMembers(s, p);
  }

  /** `filter` keeps exactly the elements that satisfy the predicate. */
  lemma {:induction false} FilterMembers<T>(s: seq<T>, p: T -> bool)
    ensures forall x :: x in Filter(s, p) <==> x in s && p(x)
  {
    if s != [] {
      FilterMembers(s[1..], p);
      assert s == [s[0]] + s[1..];
    }
  }

  /** `filter` works element by element: it distributes over concatenation,
      so it keeps the surviving elements in their original order. */
  lemma {:induction false} FilterAppend<T>(a: seq<T>, b: seq<T>, p: T -> bool)
    ensures Filter(a + b, p) == Filter(a, p) + Filter(b, p)
  {
    if a == [] {
      assert a + b == b;
    } else {
      assert (a + b)[1..] == a[1..] + b;
      FilterAppend(a[1..], b, p);
    }
  }

  /** No two elements of `s` share a key: the key is a unique index. */
  ghost predicate DistinctKeys<T>(s: seq<T>, key: T -> int) {
    forall i, j :: 0 <= i < j < |s| ==> key(s[i]) != key(s[j])
  }

  /** Appending an element under a key no element has keeps the keys distinct. */
  lemma DistinctSnoc<T>(s: seq<T>, x: T, key: T -> int)
    requires DistinctKeys(s, key)
    requires forall y :: y in s ==> key(y) != key(x)
    ensures DistinctKeys(s + [x], key)
  {
    var r := s + [x];
    forall i, j | 0 <= i < j < |r| ensures key(r[i]) != key(r[j]) {
      assert r[i] == s[i];
      if j == |s| {
        assert s[i] in s;
      } else {
        assert r[j] == s[j];
      }
    }
  }

  /** Replacing an element by one with the same key keeps the keys distinct. */
  lemma DistinctUpdate<T>(s: seq<T>, i: nat, x: T, key: T -> int)
    requires DistinctKeys(s, key) && i < |s| && key(x) == key(s[i])
    ensures DistinctKeys(s[i := x], key)
  {
    var r := s[i := x];
    assert forall k :: 0 <= k < |s| ==> key(r[k]) == key(s[k]);
  }

  /** Removing one element keeps the keys distinct. */
  lemma DistinctRemoveAt<T>(s: seq<T>, i: nat, key: T -> int)
    requires DistinctKeys(s, key) && i < |s|
    ensures DistinctKeys(s[..i] + s[i + 1..], key)
  {
    var r := s[..i] + s[i + 1..];
    forall a, b | 0 <= a < b < |r| ensures key(r[a]) != key(r[b]) {
      var a' := if a < i then a else a + 1;
      var b' := if b < i then b else b + 1;
      assert r[a] == s[a'] && r[b] == s[b'];
    }
  }

  /** `filter` keeps the keys distinct. */
  lemma {:induction false} DistinctFilter<T>(s: seq<T>, p: T -> bool, key: T -> int)
    requires DistinctKeys(s, key)
    ensures DistinctKeys(Filter(s, p), key)
  {
    if s != [] {
      assert DistinctKeys(s[1..], key) by {
        forall i, j | 0 <= i < j < |s| - 1 ensures key(s[1..][i]) != key(s[1..][j]) {
          assert s[1..][i] == s[i + 1] && s[1..][j] == s[j + 1];
        }
      }
      DistinctFilter(s[1..], p, key);
      var rest := s[1..];
      var f := Filter(rest, p);
      forall k | 0 <= k < |f| ensures key(f[k]) != key(s[0]) {
        FilteredFrom(rest, p, f[k]);
        var m :| 0 <= m < |rest| && rest[m] == f[k];
        assert s[m + 1] == f[k];
      }
      if p(s[0]) {
        DistinctCons(s[0], Filter(s[1..], p), key);
      }
    }
  }

  lemma DistinctCons<T>(x: T, s: seq<T>, key: T -> int)
    requires DistinctKeys(s, key)
    requires forall k :: 0 <= k < |s| ==> key(s[k]) != key(x)
    ensures DistinctKeys([x] + s, key)
  {
    var r := [x] + s;
    forall i, j | 0 <= i < j < |r| ensures key(r[i]) != key(r[j]) {
      assert r[j] == s[j - 1];
      if i != 0 {
        assert r[i] == s[i - 1];
      }
    }
  }

  /** Index of the first element satisfying `p`, as `findIndex`/`findOne` would pick it. */
  function FindFirst<T>(s: seq<T>, p: T -> bool): (r: Option<nat>)
    ensures r.Some? ==> r.value < |s| && p(s[r.value]) && forall j :: 0 <= j < r.value ==> !p(s[j])
    ensures r.None? ==> forall j :: 0 <= j < |s| ==> !p(s[j])
  {
    if s == [] then None
    else if p(s[0]) then Some(0)
    else match FindFirst(s[1..], p)
      case None => None
      case Some(k) => Some(k + 1)
  }

  /** The sequence without duplicates. */
  predicate NoDuplicates<T(==)>(s: seq<T>) {
    forall i, j :: 0 <= i < j < |s| ==> s[i] != s[j]
  }

  // ---------------------------------------------------------------- splitting

  /** The longest prefix of `s` with no character from `stop`. */
  function TakeUntil(s: string, stop: set<char>): (r: string)
    ensures |r| <= |s| && r == s[..|r|]
    ensures forall i :: 0 <= i < |r| ==> r[i] !in stop
    ensures |r| < |s| ==> s[|r|] in stop
  {
    if s == [] || s[0] in stop then [] else [s[0]] + TakeUntil(s[1..], stop)
  }

  /** `TakeUntil` stops exactly at the first stop character. */
  lemma {:induction false} TakeUntilConcat(a: string, b: string, stop: set<char>)
    requires forall i :: 0 <= i < |a| ==> a[i] !in stop
    requires b == [] || b[0] in stop
    ensures TakeUntil(a + b, stop) == a
  {
    if a == [] {
      assert a + b == b;
    } else {
      assert (a + b)[1..] == a[1..] + b;
      TakeUntilConcat(a[1..], b, stop);
    }
  }

  /** `s.split(sep)` for a one-character separator. */
  function Split(s: string, sep: char): (r: seq<string>)
    ensures |r| >= 1
    decreases |s|
  {
    var f := TakeUntil(s, {sep});
    if |f| == |s| then [s] else [f] + Split(s[|f| + 1..], sep)
  }

  /** A string without the separator is a single field. */
  lemma SplitSingle(s: string, sep: char)
    requires forall i :: 0 <= i < |s| ==> s[i] != sep
    ensures Split(s, sep) == [s]
  {
    assert s + [] == s;
    TakeUntilConcat(s, [], {sep});
  }

  /** A field without the separator, then the separator, then the rest. */
  lemma SplitCons(a: string, sep: char, rest: string)
    requires forall i :: 0 <= i < |a| ==> a[i] != sep
    ensures Split(a + [sep] + rest, sep) == [a] + Split(rest, sep)
  {
    var s := a + [sep] + rest;
    assert s == a + ([sep] + rest);
    TakeUntilConcat(a, [sep] + rest, {sep});
    assert s[|a| + 1..] == rest;
  }

  // ---------------------------------------------------------------- numbers

  /** The value of a digit in the given radix (10 or 16), if it is one. */
  function DigitValue(c: char, radix: nat): Option<nat> {
    if '0' <= c <= '9' && (c as int - '0' as int) < radix then Some(c as int - '0' as int)
    else if radix == 16 && 'a' <= c <= 'f' then Some(c as int - 'a' as int + 10)
    else if radix == 16 && 'A' <= c <= 'F' then Some(c as int - 'A' as int + 10)
    else None
  }

  /** The length of the longest prefix of `s` made of digits. */
  function DigitRun(s: string, radix: nat): (n: nat)
    ensures n <= |s|
    ensures forall i :: 0 <= i < n ==> DigitValue(s[i], radix).Some?
    ensures n < |s| ==> DigitValue(s[n], radix).None?
  {
    if s == [] || DigitValue(s[0], radix).None? then 0 else 1 + DigitRun(s[1..], radix)
  }

  /** The number a run of digits denotes, most significant first. */
  function ValueOf(digits: string, radix: nat): nat
    requires forall i :: 0 <= i < |digits| ==> DigitValue(digits[i], radix).Some?
  {
    if digits == [] then 0
    else ValueOf(digits[..|digits| - 1], radix) * radix + DigitValue(digits[|digits| - 1], radix).value
  }

  /** The decimal spelling of a natural number, as `String(n)` writes it. */
  function DecimalString(n: nat): (s: string)
    ensures |s| >= 1 && '0' <= s[0] <= '9'
    ensures forall i :: 0 <= i < |s| ==> '0' <= s[i] <= '9'
  {
    if n < 10 then [('0' as int + n) as char]
    else DecimalString(n / 10) + [('0' as int + n % 10) as char]
  }

  lemma {:induction false} DecimalValue(n: nat)
    ensures DigitRun(DecimalString(n), 10) == |DecimalString(n)|
    ensures ValueOf(DecimalString(n), 10) == n
  {
    var s := DecimalString(n);
    DigitRunAll(s);
    if n >= 10 {
      DecimalValue(n / 10);
      assert s[..|s| - 1] == DecimalString(n / 10);
    }
  }

  lemma {:induction false} DigitRunAll(s: string)
    requires forall i :: 0 <= i < |s| ==> '0' <= s[i] <= '9'
    ensures DigitRun(s, 10) == |s|
  {
    if s != [] {
      DigitRunAll(s[1..]);
    }
  }

  /** A non-empty run of decimal digits read as a number. */
  function NatOf(s: string): (r: Option<nat>)
    ensures r.Some? <==> s != [] && forall i :: 0 <= i < |s| ==> '0' <= s[i] <= '9'
  {
    if s != [] && forall i :: 0 <= i < |s| ==> '0' <= s[i] <= '9' then
      assert forall i :: 0 <= i < |s| ==> DigitValue(s[i], 10).Some?;
      Some(ValueOf(s, 10))
    else None
  }

  lemma NatOfDecimal(n: nat)
    ensures NatOf(DecimalString(n)) == Some(n)
  {
    DecimalValue(n);
  }
}
