/** The parts of java.lang.String that both registries rely on: `split(",")`, `trim()`,
    `equalsIgnoreCase` and the decimal rendering of a list size. */
module JavaText {

  /** Concatenation regrouped, for proofs that build text piece by piece. */
  lemma AppendAssoc(a: string, b: string, c: string)
    ensures a + (b + c) == a + b + c
  {
  }

  /** Position of the first `c` in `s`, or `|s|` when `s` has none. */
  function IndexOf(s: string, c: char): (i: nat)
    ensures i <= |s|
    ensures i < |s| ==> s[i] == c
    ensures forall k :: 0 <= k < i ==> s[k] != c
  {
    if s == [] then 0
    else if s[0] == c then 0
    else 1 + IndexOf(s[1..], c)
  }

  /** Every field between separators `c`, empty ones included: a string with n separators
      has n + 1 fields. */
  function Fields(s: string, c: char): (r: seq<string>)
    ensures |r| >= 1
    ensures forall k :: 0 <= k < |r| ==> c !in r[k]
    decreases |s|
  {
    var i := IndexOf(s, c);
    if i == |s| then [s]
    else [s[..i]] + Fields(s[i + 1..], c)
  }

  /** The inverse of `Fields`: the parts glued back together with `c` between them. */
  function JoinFields(parts: seq<string>, c: char): string
    requires |parts| >= 1
  {
    if |parts| == 1 then parts[0]
    else parts[0] + [c] + JoinFields(parts[1..], c)
  }

  /** Drops the empty strings at the end of a list of fields, as `String.split` with limit 0 does. */
  function DropTrailingEmpty(parts: seq<string>): (r: seq<string>)
    ensures |r| <= |parts| && r == parts[..|r|]
    ensures r == [] || r[|r| - 1] != ""
    ensures forall k :: |r| <= k < |parts| ==> parts[k] == ""
  {
    if |parts| > 0 && parts[|parts| - 1] == "" then DropTrailingEmpty(parts[..|parts| - 1])
    else parts
  }

  /** `s.split(String.valueOf(c))` for a separator that is not a regular-expression
      metacharacter: when `c` does not occur the result is `[s]` itself (so `""` gives
      `[""]`), otherwise the fields with the trailing empty ones removed. */
  function Split(s: string, c: char): (r: seq<string>)
    ensures c !in s ==> |r| == 1
    ensures |r| >= 2 ==> c in s
    ensures forall k :: 0 <= k < |r| ==> c !in r[k]
    ensures |r| >= 1 ==> r[0] == s[..IndexOf(s, c)]
  {
    if c !in s then [s]
    else DropTrailingEmpty(Fields(s, c))
  }

  /** The second part of a split with at least two parts is the text between the first and the
      second separator, or the end of the string. */
  lemma SplitSecond(s: string, c: char)
    requires |Split(s, c)| >= 2
    ensures var rest := s[IndexOf(s, c) + 1..];
            Split(s, c)[1] == rest[..IndexOf(rest, c)]
  {
    var i := IndexOf(s, c);
    var rest := s[i + 1..];
    var fields := Fields(s, c);
    assert fields == [s[..i]] + Fields(rest, c);
    assert Fields(rest, c)[0] == rest[..IndexOf(rest, c)];
    assert Split(s, c) == DropTrailingEmpty(fields);
  }

  lemma {:induction false} JoinOfFields(s: string, c: char)
    ensures JoinFields(Fields(s, c), c) == s
    decreases |s|
  {
    var i := IndexOf(s, c);
    if i < |s| {
      var rest := Fields(s[i + 1..], c);
      assert Fields(s, c) == [s[..i]] + rest;
      assert ([s[..i]] + rest)[1..] == rest;
      JoinOfFields(s[i + 1..], c);
      assert JoinFields(Fields(s, c), c) == s[..i] + [c] + s[i + 1..];
      assert s == s[..i] + [c] + s[i + 1..];
    } else {
      assert Fields(s, c) == [s];
    }
  }

  lemma {:induction false} FieldsOfJoin(parts: seq<string>, c: char)
    requires |parts| >= 1
    requires forall k :: 0 <= k < |parts| ==> c !in parts[k]
    ensures Fields(JoinFields(parts, c), c) == parts
  {
    var head := parts[0];
    assert c !in head;
    if |parts| == 1 {
      IndexOfAbsent(head, c);
    } else {
      var tail := parts[1..];
      assert forall k :: 0 <= k < |tail| ==> c !in tail[k] by {
        forall k | 0 <= k < |tail| ensures c !in tail[k] {
          assert tail[k] == parts[k + 1];
        }
      }
      var rest := JoinFields(tail, c);
      var s := head + [c] + rest;
      assert JoinFields(parts, c) == s;
      FieldsOfJoin(tail, c);
      IndexOfPrefix(head, rest, c);
      assert s[..|head|] == head;
      assert s[|head| + 1..] == rest;
      calc {
        Fields(s, c);
        [s[..|head|]] + Fields(s[|head| + 1..], c);
        [head] + tail;
        parts;
      }
    }
  }

  lemma {:induction false} IndexOfAbsent(s: string, c: char)
    requires c !in s
    ensures IndexOf(s, c) == |s|
  {
    if s != [] {
      IndexOfAbsent(s[1..], c);
    }
  }

  lemma {:induction false} IndexOfPrefix(a: string, b: string, c: char)
    requires c !in a
    ensures IndexOf(a + [c] + b, c) == |a|
  {
    var s := a + [c] + b;
    assert s[|a|] == c;
    assert forall k :: 0 <= k < |a| ==> s[k] == a[k];
  }

  /** A line with one separator and a non-empty second field splits into exactly its two fields. */
  lemma SplitTwoFields(a: string, b: string, c: char)
    requires c !in a && c !in b && b != ""
    ensures Split(a + [c] + b, c) == [a, b]
  {
    var s := a + [c] + b;
    assert s[|a|] == c;
    FieldsOfJoin([a, b], c);
    assert JoinFields([a, b], c) == s;
  }

  /** Characters that `String.trim` removes: every code point up to and including U+0020. */
  predicate IsBlank(ch: char)
  {
    ch <= ' '
  }

  function LeadingBlanks(s: string): (i: nat)
    ensures i <= |s|
    ensures forall k :: 0 <= k < i ==> IsBlank(s[k])
    ensures i < |s| ==> !IsBlank(s[i])
  {
    if s != [] && IsBlank(s[0]) then 1 + LeadingBlanks(s[1..]) else 0
  }

  function TrailingBlanks(s: string): (j: nat)
    ensures j <= |s|
    ensures forall k :: |s| - j <= k < |s| ==> IsBlank(s[k])
    ensures j < |s| ==> !IsBlank(s[|s| - j - 1])
  {
    if s != [] && IsBlank(s[|s| - 1]) then 1 + TrailingBlanks(s[..|s| - 1]) else 0
  }

  /** `String.trim`: the text without its leading and trailing blanks. */
  function Trim(s: string): (r: string)
    ensures |r| <= |s|
    ensures r == [] || (!IsBlank(r[0]) && !IsBlank(r[|r| - 1]))
    ensures r == [] <==> forall k :: 0 <= k < |s| ==> IsBlank(s[k])
    ensures forall ch :: ch in r ==> ch in s
  {
    var lo := LeadingBlanks(s);
    var t := s[lo..];
    var r := t[..|t| - TrailingBlanks(t)];
    assert r != [] ==> r[0] == s[lo];
    r
  }

  /** `Trim` cuts `s` into blanks, the kept text, and blanks, and keeps the middle in full. */
  lemma TrimSplitsBlanks(s: string)
    ensures exists lo, hi ::
              && 0 <= lo <= hi <= |s| && Trim(s) == s[lo..hi]
              && (forall k :: 0 <= k < lo ==> IsBlank(s[k]))
              && (forall k :: hi <= k < |s| ==> IsBlank(s[k]))
  {
    var lo := LeadingBlanks(s);
    var t := s[lo..];
    var hi := lo + |t| - TrailingBlanks(t);
    assert Trim(s) == s[lo..hi];
    assert forall k :: hi <= k < |s| ==> s[k] == t[k - lo];
  }

  /** Text that neither starts nor ends with a blank is its own trim. */
  lemma TrimUnchanged(s: string)
    requires s != [] && !IsBlank(s[0]) && !IsBlank(s[|s| - 1])
    ensures Trim(s) == s
  {
    assert LeadingBlanks(s) == 0;
    assert s[0..] == s;
    assert TrailingBlanks(s) == 0;
  }

  lemma TrimIdempotent(s: string)
    ensures Trim(Trim(s)) == Trim(s)
  {
    var r := Trim(s);
    if r != [] {
      assert LeadingBlanks(r) == 0;
      assert TrailingBlanks(r) == 0;
    }
  }

  /** ASCII upper case, the only letters this model folds. */
  function ToUpper(ch: char): char
  {
    if 'a' <= ch <= 'z' then (ch as int - 32) as char else ch
  }

  function ToLower(ch: char): char
  {
    if 'A' <= ch <= 'Z' then (ch as int + 32) as char else ch
  }

  /** One position of `String.equalsIgnoreCase`: equal, equal in upper case, or equal in
      lower case after upper-casing. */
  predicate CharEqualsIgnoreCase(a: char, b: char)
  {
    a == b || ToUpper(a) == ToUpper(b) || ToLower(ToUpper(a)) == ToLower(ToUpper(b))
  }

  predicate EqualsIgnoreCase(a: string, b: string)
    ensures EqualsIgnoreCase(a, b) ==> |a| == |b|
    ensures a == b ==> EqualsIgnoreCase(a, b)
  {
    |a| == |b| && forall k :: 0 <= k < |a| ==> CharEqualsIgnoreCase(a[k], b[k])
  }

  /** The independent reference: the lower-case fold of every character. */
  function Fold(s: string): (r: string)
    ensures |r| == |s|
    ensures forall k :: 0 <= k < |s| ==> r[k] == ToLower(s[k])
  {
    seq(|s|, k requires 0 <= k < |s| => ToLower(s[k]))
  }

  lemma CharEqualsIgnoreCaseIsFold(a: char, b: char)
    ensures CharEqualsIgnoreCase(a, b) <==> ToLower(a) == ToLower(b)
  {
  }

  /** Two names are equal ignoring case exactly when their folds are equal, so the relation is
      an equivalence. */
  lemma {:induction false} EqualsIgnoreCaseIsFold(a: string, b: string)
    ensures EqualsIgnoreCase(a, b) <==> Fold(a) == Fold(b)
  {
    if EqualsIgnoreCase(a, b) {
      forall k | 0 <= k < |a| ensures Fold(a)[k] == Fold(b)[k] {
        CharEqualsIgnoreCaseIsFold(a[k], b[k]);
      }
    }
    if Fold(a) == Fold(b) {
      forall k | 0 <= k < |a| ensures CharEqualsIgnoreCase(a[k], b[k]) {
        assert Fold(a)[k] == Fold(b)[k];
        CharEqualsIgnoreCaseIsFold(a[k], b[k]);
      }
    }
  }

  lemma EqualsIgnoreCaseTransitive(a: string, b: string, c: string)
    requires EqualsIgnoreCase(a, b) && EqualsIgnoreCase(b, c)
    ensures EqualsIgnoreCase(a, c)
  {
    EqualsIgnoreCaseIsFold(a, b);
    EqualsIgnoreCaseIsFold(b, c);
    EqualsIgnoreCaseIsFold(a, c);
  }

  function Digit(d: nat): char
    requires d < 10
  {
    ('0' as int + d) as char
  }

  /** `Integer.toString` of a count: the decimal digits, most significant first, no leading zero. */
  function Decimal(n: nat): (r: string)
    ensures |r| >= 1
    ensures forall k :: 0 <= k < |r| ==> '0' <= r[k] <= '9'
    ensures |r| > 1 ==> r[0] != '0'
  {
    if n < 10 then [Digit(n)] else Decimal(n / 10) + [Digit(n % 10)]
  }

  /** The reading of a string of decimal digits. */
  function DecimalValue(s: string): nat
    requires forall k :: 0 <= k < |s| ==> '0' <= s[k] <= '9'
  {
    if s == [] then 0
    else 10 * DecimalValue(s[..|s| - 1]) + (s[|s| - 1] as int - '0' as int)
  }

  lemma {:induction false} DecimalRoundTrip(n: nat)
    ensures DecimalValue(Decimal(n)) == n
  {
    if n >= 10 {
      DecimalRoundTrip(n / 10);
      var r := Decimal(n);
      assert r[..|r| - 1] == Decimal(n / 10);
    }
  }
}
