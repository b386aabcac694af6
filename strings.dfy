/**
 * Python string built-ins that the core relies on, stated over `seq<char>`:
 * `re.sub('[^...]', '', s)` for a character class, `str.strip()`,
 * `str.split(',')` with its inverse `','.join(...)`, and the ordering `<`
 * on `str`. Characters are Unicode scalar values, as Python's code points.
 */
module Strings {

  /** No element occurs twice. */
  predicate Distinct<T(==)>(s: seq<T>) {
    forall i, j :: 0 <= i < j < |s| ==> s[i] != s[j]
  }

  lemma DistinctAppend<T>(s: seq<T>, x: T)
    requires Distinct(s) && x !in s
    ensures Distinct(s + [x])
  {
  }

  lemma DistinctInit<T>(s: seq<T>, x: T)
    requires Distinct(s + [x])
    ensures Distinct(s) && x !in s
  {
    assert forall i :: 0 <= i < |s| ==> (s + [x])[i] == s[i];
    forall i | 0 <= i < |s| ensures s[i] != x {
      assert (s + [x])[i] != (s + [x])[|s|];
    }
  }

  // ---------------------------------------------------------------------
  // re.sub('[^<class>]', '', s): keep exactly the characters of a class

  /** The class `[A-Z]`. */
  predicate IsUpper(c: char) {
    'A' <= c <= 'Z'
  }

  /** The class `[a-zA-Z0-9 ]`. */
  predicate IsNameChar(c: char) {
    ('a' <= c <= 'z') || ('A' <= c <= 'Z') || ('0' <= c <= '9') || c == ' '
  }

  /** The character classes the core's regular expressions keep. */
  datatype CharClass = UpperLetters | NameChars

  predicate InClass(c: char, cls: CharClass) {
    match cls
    case UpperLetters => IsUpper(c)
    case NameChars => IsNameChar(c)
  }

  /** The characters of `s` that belong to the class `cls`, in their order. */
  function KeepOnly(s: string, cls: CharClass): (r: string)
    ensures |r| <= |s|
    ensures forall i :: 0 <= i < |r| ==> InClass(r[i], cls)
    decreases |s|
  {
    if s == [] then []
    else KeepOnly(s[..|s| - 1], cls) + (if InClass(s[|s| - 1], cls) then [s[|s| - 1]] else [])
  }

  /** A string made only of allowed characters is left as it is. */
  lemma {:induction false} KeepOnlyAllAllowed(s: string, cls: CharClass)
    requires forall i :: 0 <= i < |s| ==> InClass(s[i], cls)
    ensures KeepOnly(s, cls) == s
    decreases |s|
  {
    if s != [] {
      var t := s[..|s| - 1];
      assert forall i :: 0 <= i < |t| ==> InClass(t[i], cls) by {
        forall i | 0 <= i < |t| ensures InClass(t[i], cls) { assert t[i] == s[i]; }
      }
      KeepOnlyAllAllowed(t, cls);
      assert InClass(s[|s| - 1], cls);
      assert KeepOnly(s, cls) == KeepOnly(t, cls) + [s[|s| - 1]];
      assert t + [s[|s| - 1]] == s;
    }
  }

  /** The positions of `s` whose character belongs to `cls`. */
  ghost function Positions(s: string, cls: CharClass): set<int> {
    set i | 0 <= i < |s| && InClass(s[i], cls)
  }

  /** Filtering distributes over concatenation. */
  lemma {:induction false} KeepOnlyAppend(a: string, b: string, cls: CharClass)
    ensures KeepOnly(a + b, cls) == KeepOnly(a, cls) + KeepOnly(b, cls)
    decreases |b|
  {
    if b != [] {
      var b' := b[..|b| - 1];
      assert (a + b)[..|a + b| - 1] == a + b';
      KeepOnlyAppend(a, b', cls);
    } else {
      assert a + b == a;
    }
  }

  /** The filtered string has one character per allowed position of the input. */
  lemma {:induction false} KeepOnlyCount(s: string, cls: CharClass)
    ensures |KeepOnly(s, cls)| == |Positions(s, cls)|
    decreases |s|
  {
    if s == [] {
      assert Positions(s, cls) == {};
    } else {
      var t := s[..|s| - 1];
      KeepOnlyCount(t, cls);
      assert |s| - 1 !in Positions(t, cls);
      if InClass(s[|s| - 1], cls) {
        assert Positions(s, cls) == Positions(t, cls) + {|s| - 1};
      } else {
        assert Positions(s, cls) == Positions(t, cls);
      }
    }
  }

  /** A character survives the filter exactly when it occurs in `s` and is allowed. */
  lemma {:induction false} KeepOnlyMembers(s: string, cls: CharClass, c: char)
    ensures c in KeepOnly(s, cls) <==> c in s && InClass(c, cls)
    decreases |s|
  {
    if s != [] {
      var t := s[..|s| - 1];
      KeepOnlyMembers(t, cls, c);
      assert s == t + [s[|s| - 1]];
    }
  }

  // ---------------------------------------------------------------------
  // str.strip()

  /** The characters Python's `str.isspace` accepts, which `str.strip()` removes. */
  predicate IsSpace(c: char) {
    || ('\t' <= c <= '\r')
    || ('\U{1C}' <= c <= ' ')
    || c == '\U{85}' || c == '\U{A0}' || c == '\U{1680}'
    || ('\U{2000}' <= c <= '\U{200A}')
    || c == '\U{2028}' || c == '\U{2029}' || c == '\U{202F}' || c == '\U{205F}'
    || c == '\U{3000}'
  }

  /** `s` without its leading whitespace. */
  function TrimStart(s: string): (r: string)
    ensures |r| <= |s|
    ensures r == [] || !IsSpace(r[0])
    decreases |s|
  {
    if s != [] && IsSpace(s[0]) then TrimStart(s[1..]) else s
  }

  /** TrimStart drops a prefix: what is left is a suffix of the input. */
  lemma {:induction false} TrimStartSuffix(s: string)
    ensures TrimStart(s) == s[|s| - |TrimStart(s)|..]
    decreases |s|
  {
    if s != [] && IsSpace(s[0]) {
      TrimStartSuffix(s[1..]);
      assert s[1..][|s| - 1 - |TrimStart(s)|..] == s[|s| - |TrimStart(s)|..];
    }
  }

  /** TrimStart drops only whitespace. */
  lemma {:induction false} TrimStartDropsSpace(s: string)
    ensures forall i :: 0 <= i < |s| - |TrimStart(s)| ==> IsSpace(s[i])
    decreases |s|
  {
    if s != [] && IsSpace(s[0]) {
      TrimStartDropsSpace(s[1..]);
      assert forall i :: 1 <= i < |s| ==> s[i] == s[1..][i - 1];
    }
  }

  /** `s` without its trailing whitespace. */
  function TrimEnd(s: string): (r: string)
    ensures |r| <= |s| && r == s[..|r|]
    ensures r == [] || !IsSpace(r[|r| - 1])
    decreases |s|
  {
    if s != [] && IsSpace(s[|s| - 1]) then TrimEnd(s[..|s| - 1]) else s
  }

  /** TrimEnd drops only whitespace. */
  lemma {:induction false} TrimEndDropsSpace(s: string)
    ensures forall i :: |TrimEnd(s)| <= i < |s| ==> IsSpace(s[i])
    decreases |s|
  {
    if s != [] && IsSpace(s[|s| - 1]) {
      TrimEndDropsSpace(s[..|s| - 1]);
    }
  }

  /** Python's `s.strip()`: the longest infix that neither starts nor ends with whitespace. */
  function Strip(s: string): (r: string)
    ensures |r| <= |s|
    ensures r == [] || (!IsSpace(r[0]) && !IsSpace(r[|r| - 1]))
    ensures (s == [] || (!IsSpace(s[0]) && !IsSpace(s[|s| - 1]))) ==> r == s
  {
    var t := TrimStart(s);
    var r := TrimEnd(t);
    assert r != [] ==> r[0] == t[0];
    r
  }

  /** Every character of the stripped string is a character of the input, so a class is kept. */
  lemma StripKeepsClass(s: string, cls: CharClass)
    requires forall i :: 0 <= i < |s| ==> InClass(s[i], cls)
    ensures forall i :: 0 <= i < |Strip(s)| ==> InClass(Strip(s)[i], cls)
  {
    var t := TrimStart(s);
    var r := TrimEnd(t);
    TrimStartSuffix(s);
    forall i | 0 <= i < |r| ensures InClass(r[i], cls) {
      assert r[i] == t[i] == s[|s| - |t| + i];
    }
  }

  /** TrimStart removes an all-whitespace string entirely. */
  lemma {:induction false} TrimStartAllSpace(s: string)
    requires forall i :: 0 <= i < |s| ==> IsSpace(s[i])
    ensures TrimStart(s) == []
    decreases |s|
  {
    if s != [] {
      assert forall i :: 0 <= i < |s| - 1 ==> s[1..][i] == s[i + 1];
      TrimStartAllSpace(s[1..]);
    }
  }

  /** An all-whitespace string strips to the empty string. */
  lemma StripAllSpace(s: string)
    requires forall i :: 0 <= i < |s| ==> IsSpace(s[i])
    ensures Strip(s) == []
  {
    TrimStartAllSpace(s);
  }

  /** Stripping a string twice is the same as stripping it once. */
  lemma StripIdempotent(s: string)
    ensures Strip(Strip(s)) == Strip(s)
  {
  }

  /** A string with no whitespace character at all is left unchanged by `strip()`. */
  lemma StripNoSpace(s: string)
    requires forall i :: 0 <= i < |s| ==> !IsSpace(s[i])
    ensures Strip(s) == s
  {
  }

  // ---------------------------------------------------------------------
  // str.split(sep) and sep.join(parts)

  /** Python's `s.split(sep)` for a one-character separator: the pieces between separators. */
  function Split(s: string, sep: char): (r: seq<string>)
    ensures |r| >= 1
    ensures forall i :: 0 <= i < |r| ==> sep !in r[i]
    decreases |s|
  {
    if s == [] then [[]]
    else
      var rest := Split(s[1..], sep);
      if s[0] == sep then [[]] + rest
      else [[s[0]] + rest[0]] + rest[1..]
  }

  /** Python's `sep.join(parts)`. */
  function Join(parts: seq<string>, sep: char): string
    decreases |parts|
  {
    if |parts| == 0 then []
    else if |parts| == 1 then parts[0]
    else parts[0] + [sep] + Join(parts[1..], sep)
  }

  /** Joining the pieces of a split gives back the original string. */
  lemma {:induction false} JoinSplit(s: string, sep: char)
    ensures Join(Split(s, sep), sep) == s
    decreases |s|
  {
    if s != [] {
      var rest := Split(s[1..], sep);
      JoinSplit(s[1..], sep);
      if s[0] == sep {
        assert Split(s, sep) == [[]] + rest;
      } else {
        var r := Split(s, sep);
        assert r == [[s[0]] + rest[0]] + rest[1..];
        if |rest| == 1 {
          assert Join(r, sep) == [s[0]] + rest[0];
        } else {
          assert r[1..] == rest[1..];
          assert Join(rest, sep) == rest[0] + [sep] + Join(rest[1..], sep);
        }
      }
    }
  }

  /** Splitting `p + sep + t` with a separator-free `p` peels off `p` as the first piece. */
  lemma {:induction false} SplitAfterPiece(p: string, t: string, sep: char)
    requires sep !in p
    ensures Split(p + [sep] + t, sep) == [p] + Split(t, sep)
    decreases |p|
  {
    if p == [] {
      assert ([] + [sep] + t)[1..] == t;
    } else {
      SplitAfterPiece(p[1..], t, sep);
      assert (p + [sep] + t)[1..] == p[1..] + [sep] + t;
      assert [p[0]] + p[1..] == p;
    }
  }

  /** A separator-free string is a single piece. */
  lemma {:induction false} SplitPiece(p: string, sep: char)
    requires sep !in p
    ensures Split(p, sep) == [p]
    decreases |p|
  {
    if p != [] {
      SplitPiece(p[1..], sep);
      assert [p[0]] + p[1..] == p;
    }
  }

  /** Splitting a join of separator-free pieces gives back the pieces. */
  lemma {:induction false} SplitJoin(parts: seq<string>, sep: char)
    requires |parts| >= 1
    requires forall i :: 0 <= i < |parts| ==> sep !in parts[i]
    ensures Split(Join(parts, sep), sep) == parts
    decreases |parts|
  {
    if |parts| == 1 {
      SplitPiece(parts[0], sep);
    } else {
      SplitJoin(parts[1..], sep);
      SplitAfterPiece(parts[0], Join(parts[1..], sep), sep);
      assert [parts[0]] + parts[1..] == parts;
    }
  }

  // ---------------------------------------------------------------------
  // a < b on Python strings: lexicographic by code point, a proper prefix first

  predicate Less(a: string, b: string)
    decreases |a|
  {
    if a == [] then b != []
    else if b == [] then false
    else if a[0] != b[0] then a[0] < b[0]
    else Less(a[1..], b[1..])
  }

  /** Exactly one of `a < b`, `a == b`, `b < a` holds. */
  lemma {:induction false} LessTrichotomy(a: string, b: string)
    ensures Less(a, b) || a == b || Less(b, a)
    ensures !(Less(a, b) && Less(b, a))
    decreases |a|
  {
    if a != [] && b != [] {
      LessTrichotomy(a[1..], b[1..]);
      if a[0] == b[0] && a[1..] == b[1..] {
        assert a == [a[0]] + a[1..] && b == [b[0]] + b[1..];
      }
    }
  }
}
