/** The JavaScript string operations the core relies on, on `seq<char>`:
    `trim`, `split` on one character, `join`, `includes`, ASCII
    `toLowerCase`, and decimal rendering and parsing of naturals. */
module Text {
  import opened Wrappers

  /** The characters `String.prototype.trim` strips: ASCII white space,
      the line terminators and the Unicode space separators. */
  const WhitespaceChars: string :=
    "\n \t\r\U{B}\U{C}\U{A0}\U{1680}" +
    "\U{2000}\U{2001}\U{2002}\U{2003}\U{2004}\U{2005}\U{2006}\U{2007}\U{2008}\U{2009}\U{200A}" +
    "\U{2028}\U{2029}\U{202F}\U{205F}\U{3000}\U{FEFF}"

  /** `c` is one of `cs`. */
  function Among(c: char, cs: string): bool {
    |cs| > 0 && (cs[0] == c || Among(c, cs[1..]))
  }

  predicate IsWhitespace(c: char) {
    Among(c, WhitespaceChars)
  }

  /** `r` occurs in `s` starting at index `k`. */
  predicate OccursAt(s: string, k: int, r: string) {
    0 <= k <= |s| - |r| && s[k..k + |r|] == r
  }

  predicate NoWhitespace(s: string) {
    forall i :: 0 <= i < |s| ==> !IsWhitespace(s[i])
  }

  /** `s` with its leading white space removed: a suffix of `s`. */
  function TrimStart(s: string): (r: string)
    ensures |r| <= |s| && r == s[|s| - |r|..]
  {
    if |s| > 0 && IsWhitespace(s[0]) then TrimStart(s[1..]) else s
  }

  /** `s` with its trailing white space removed: a prefix of `s`. */
  function TrimEnd(s: string): (r: string)
    ensures |r| <= |s| && r == s[..|r|]
  {
    if |s| > 0 && IsWhitespace(s[|s| - 1]) then TrimEnd(s[..|s| - 1]) else s
  }

  /** `TrimStart` removes white space only, and all of it. */
  lemma TrimStartStrips(s: string)
    ensures var r := TrimStart(s);
      (r == [] || !IsWhitespace(r[0])) && forall i :: 0 <= i < |s| - |r| ==> IsWhitespace(s[i])
  {
    TrimStartStops(s);
    TrimStartCuts(s);
  }

  lemma {:induction false} TrimStartStops(s: string)
    ensures TrimStart(s) == [] || !IsWhitespace(TrimStart(s)[0])
  {
    if |s| > 0 && IsWhitespace(s[0]) {
      TrimStartStops(s[1..]);
    }
  }

  lemma {:induction false} TrimStartCuts(s: string)
    ensures forall i :: 0 <= i < |s| - |TrimStart(s)| ==> IsWhitespace(s[i])
  {
    if |s| > 0 && IsWhitespace(s[0]) {
      var t := s[1..];
      TrimStartCuts(t);
      var n := |s| - |TrimStart(t)|;
      forall i | 0 <= i < n ensures IsWhitespace(s[i]) {
        if i > 0 {
          assert s[i] == t[i - 1];
        }
      }
    }
  }

  /** `TrimEnd` removes white space only, and all of it. */
  lemma {:induction false} TrimEndStrips(s: string)
    ensures var r := TrimEnd(s);
      (r == [] || !IsWhitespace(r[|r| - 1])) && forall i :: |r| <= i < |s| ==> IsWhitespace(s[i])
  {
    if |s| > 0 && IsWhitespace(s[|s| - 1]) {
      var t := s[..|s| - 1];
      TrimEndStrips(t);
      var r := TrimEnd(t);
      assert TrimEnd(s) == r;
      forall i | |r| <= i < |s| ensures IsWhitespace(s[i]) {
        if i < |s| - 1 {
          assert s[i] == t[i];
        }
      }
    }
  }

  /** `s.trim()`. */
  function Trim(s: string): (r: string)
    ensures |r| <= |s|
  {
    TrimEnd(TrimStart(s))
  }

  /** `Trim(s)` is the slice of `s` left once the white space at both ends
      is removed: every character cut off is white space ... */
  lemma TrimStrips(s: string)
    ensures var r := Trim(s);
      exists k :: OccursAt(s, k, r) &&
        (forall i :: 0 <= i < k ==> IsWhitespace(s[i])) &&
        (forall i :: k + |r| <= i < |s| ==> IsWhitespace(s[i]))
  {
    var k := |s| - |TrimStart(s)|;
    TrimOccurs(s);
    TrimStartCuts(s);
    TrimBack(s);
    assert OccursAt(s, k, Trim(s)) &&
      (forall i :: 0 <= i < k ==> IsWhitespace(s[i])) &&
      (forall i :: k + |Trim(s)| <= i < |s| ==> IsWhitespace(s[i]));
  }

  lemma TrimOccurs(s: string)
    ensures OccursAt(s, |s| - |TrimStart(s)|, Trim(s))
  {
    var t := TrimStart(s);
    SliceOfSlice(s, |s| - |t|, t, TrimEnd(t));
  }

  /** A prefix of a suffix of `s` occurs in `s` where the suffix starts. */
  lemma SliceOfSlice(s: string, k: nat, t: string, r: string)
    requires k <= |s| && t == s[k..] && |r| <= |t| && r == t[..|r|]
    ensures OccursAt(s, k, r)
  {
    assert s[k..k + |r|] == s[k..][..|r|];
  }

  lemma TrimBack(s: string)
    ensures forall i :: |s| - |TrimStart(s)| + |Trim(s)| <= i < |s| ==> IsWhitespace(s[i])
  {
    var t := TrimStart(s);
    TrimEndStrips(t);
    TailOfSuffix(s, |s| - |t|, t, |TrimEnd(t)|);
  }

  /** White space at the end of a suffix of `s` is white space at the end of `s`. */
  lemma TailOfSuffix(s: string, k: nat, t: string, n: nat)
    requires k <= |s| && t == s[k..]
    requires forall i :: n <= i < |t| ==> IsWhitespace(t[i])
    ensures forall i :: k + n <= i < |s| ==> IsWhitespace(s[i])
  {
    forall i | k + n <= i < |s| ensures IsWhitespace(s[i]) {
      assert s[i] == t[i - k];
    }
  }

  /** ... and it neither starts nor ends with white space. */
  lemma TrimEnds(s: string)
    ensures var r := Trim(s); r == [] || (!IsWhitespace(r[0]) && !IsWhitespace(r[|r| - 1]))
  {
    var t := TrimStart(s);
    var r := TrimEnd(t);
    assert r == Trim(s);
    TrimStartStrips(s);
    TrimEndStrips(t);
    if r != [] {
      assert r[0] == t[0];
    }
  }

  lemma TrimKeeps(s: string)
    requires s == [] || (!IsWhitespace(s[0]) && !IsWhitespace(s[|s| - 1]))
    ensures Trim(s) == s
  {
  }

  /** `s.split(sep)` for a one-character separator: the pieces between
      separators, always at least one. */
  function Split(s: string, sep: char): (parts: seq<string>)
    ensures |parts| >= 1
    ensures forall i :: 0 <= i < |parts| ==> sep !in parts[i]
  {
    if |s| == 0 then [""]
    else
      var rest := Split(s[1..], sep);
      if s[0] == sep then [""] + rest else [[s[0]] + rest[0]] + rest[1..]
  }

  /** `parts.join(sep)`. */
  function Join(parts: seq<string>, sep: string): string {
    if |parts| == 0 then ""
    else if |parts| == 1 then parts[0]
    else parts[0] + sep + Join(parts[1..], sep)
  }

  lemma {:induction false} JoinSplit(s: string, sep: char)
    ensures Join(Split(s, sep), [sep]) == s
  {
    if |s| > 0 {
      JoinSplit(s[1..], sep);
      var rest := Split(s[1..], sep);
      if s[0] != sep {
        if |rest| > 1 {
          assert [[s[0]] + rest[0]] + rest[1..] == [[s[0]] + rest[0]] + rest[1..];
          assert Join([[s[0]] + rest[0]] + rest[1..], [sep]) == [s[0]] + rest[0] + [sep] + Join(rest[1..], [sep]);
          assert Join(rest, [sep]) == rest[0] + [sep] + Join(rest[1..], [sep]);
        }
        assert s == [s[0]] + s[1..];
      } else {
        assert ([""] + rest)[1..] == rest;
        assert s == [s[0]] + s[1..];
      }
    }
  }

  lemma {:induction false} SplitNoSep(a: string, sep: char)
    requires sep !in a
    ensures Split(a, sep) == [a]
  {
    if |a| > 0 {
      SplitNoSep(a[1..], sep);
      assert [a[0]] + a[1..] == a;
    }
  }

  lemma {:induction false} SplitAfterPiece(a: string, sep: char, b: string)
    requires sep !in a
    ensures Split(a + [sep] + b, sep) == [a] + Split(b, sep)
  {
    if |a| == 0 {
      assert a + [sep] + b == [sep] + b;
      assert ([sep] + b)[1..] == b;
    } else {
      assert (a + [sep] + b)[1..] == a[1..] + [sep] + b;
      SplitAfterPiece(a[1..], sep, b);
      assert [a[0]] + a[1..] == a;
    }
  }

  /** Splitting at one separator splits the text into the pieces of
      either side. */
  lemma {:induction false} SplitConcat(a: string, sep: char, b: string)
    ensures Split(a + [sep] + b, sep) == Split(a, sep) + Split(b, sep)
  {
    if |a| == 0 {
      assert a + [sep] + b == [sep] + b;
      assert ([sep] + b)[1..] == b;
    } else {
      var s := a + [sep] + b;
      assert s[0] == a[0];
      assert s[1..] == a[1..] + [sep] + b;
      SplitConcat(a[1..], sep, b);
      if a[0] != sep {
        ExtendFirstPiece(a[0], Split(a[1..], sep), Split(b, sep));
      }
    }
  }

  lemma ExtendFirstPiece(c: char, p: seq<string>, q: seq<string>)
    requires |p| >= 1
    ensures [[c] + p[0]] + p[1..] + q == [[c] + (p + q)[0]] + (p + q)[1..]
  {
    assert (p + q)[1..] == p[1..] + q;
  }

  /** Splitting a join recovers the pieces when no piece holds the separator. */
  lemma {:induction false} SplitJoin(parts: seq<string>, sep: char)
    requires |parts| >= 1
    requires forall i :: 0 <= i < |parts| ==> sep !in parts[i]
    ensures Split(Join(parts, [sep]), sep) == parts
  {
    if |parts| == 1 {
      SplitNoSep(parts[0], sep);
    } else {
      SplitJoin(parts[1..], sep);
      SplitAfterPiece(parts[0], sep, Join(parts[1..], [sep]));
      assert [parts[0]] + parts[1..] == parts;
    }
  }

  /** `lines.filter((l) => l.length > 0)`. */
  function NonEmpty(lines: seq<string>): (r: seq<string>)
    ensures |r| <= |lines|
  {
    if |lines| == 0 then []
    else if |lines[0]| > 0 then [lines[0]] + NonEmpty(lines[1..])
    else NonEmpty(lines[1..])
  }

  /** Filtering distributes over concatenation. */
  lemma {:induction false} NonEmptyAppend(a: seq<string>, b: seq<string>)
    ensures NonEmpty(a + b) == NonEmpty(a) + NonEmpty(b)
  {
    if |a| > 0 {
      assert (a + b)[0] == a[0];
      assert (a + b)[1..] == a[1..] + b;
      NonEmptyAppend(a[1..], b);
    } else {
      assert a + b == b;
    }
  }

  /** The filter keeps exactly the non-empty lines: what it returns is
      non-empty and taken from the input, and it changes nothing when no
      line is empty. */
  lemma NonEmptyKeeps(lines: seq<string>)
    ensures forall i :: 0 <= i < |NonEmpty(lines)| ==>
      |NonEmpty(lines)[i]| > 0 && NonEmpty(lines)[i] in lines
    ensures (forall i :: 0 <= i < |lines| ==> |lines[i]| > 0) ==> NonEmpty(lines) == lines
  {
    NonEmptyTaken(lines);
    if forall i :: 0 <= i < |lines| ==> |lines[i]| > 0 {
      NonEmptyAll(lines);
    }
  }

  lemma {:induction false} NonEmptyTaken(lines: seq<string>)
    ensures forall i :: 0 <= i < |NonEmpty(lines)| ==>
      |NonEmpty(lines)[i]| > 0 && NonEmpty(lines)[i] in lines
  {
    if |lines| > 0 {
      var tail := lines[1..];
      NonEmptyTaken(tail);
      var r := NonEmpty(lines);
      forall i | 0 <= i < |r| ensures |r[i]| > 0 && r[i] in lines {
        if |lines[0]| > 0 {
          assert r == [lines[0]] + NonEmpty(tail);
          if i > 0 {
            assert r[i] == NonEmpty(tail)[i - 1];
            assert r[i] in tail;
          }
        } else {
          assert r == NonEmpty(tail);
          assert r[i] in tail;
        }
      }
    }
  }

  lemma {:induction false} NonEmptyAll(lines: seq<string>)
    requires forall i :: 0 <= i < |lines| ==> |lines[i]| > 0
    ensures NonEmpty(lines) == lines
  {
    if |lines| > 0 {
      var tail := lines[1..];
      forall i | 0 <= i < |tail| ensures |tail[i]| > 0 {
        assert tail[i] == lines[i + 1];
      }
      NonEmptyAll(tail);
      assert [lines[0]] + tail == lines;
    }
  }

  /** `str.trim().split('\n').filter((l) => l.length > 0)`: the non-empty
      lines of a text, shared by the village map loader and the editor. */
  function TextLines(str: string): seq<string> {
    NonEmpty(Split(Trim(str), '\n'))
  }

  /** Every line `TextLines` yields is non-empty and free of line breaks. */
  lemma TextLinesAreLines(str: string)
    ensures forall i :: 0 <= i < |TextLines(str)| ==>
      |TextLines(str)[i]| > 0 && '\n' !in TextLines(str)[i]
  {
    NonEmptyKeeps(Split(Trim(str), '\n'));
  }

  /** The names a plain JavaScript object inherits from `Object.prototype`:
      looking one of them up in an object literal or in the result of
      `Object.fromEntries` finds a function (or, for `__proto__`, the
      prototype itself) rather than `undefined`. */
  const ObjectProtoMembers: set<string> :=
    {"constructor", "hasOwnProperty", "isPrototypeOf", "propertyIsEnumerable",
     "toString", "toLocaleString", "valueOf", "__proto__",
     "__defineGetter__", "__defineSetter__", "__lookupGetter__", "__lookupSetter__"}

  /** `s.includes(pat)` and the single-literal regular expression test. */
  function Contains(s: string, pat: string): bool
    decreases |s|
  {
    if |pat| > |s| then false
    else if s[..|pat|] == pat then true
    else Contains(s[1..], pat)
  }

  /** `Contains` holds exactly when the pattern occurs at some index. */
  lemma {:induction false} ContainsOccurs(s: string, pat: string)
    ensures Contains(s, pat) <==> exists i :: OccursAt(s, i, pat)
    decreases |s|
  {
    if |pat| > |s| {
    } else if s[..|pat|] == pat {
      assert OccursAt(s, 0, pat);
    } else {
      ContainsOccurs(s[1..], pat);
      if Contains(s[1..], pat) {
        var i :| OccursAt(s[1..], i, pat);
        assert s[1..][i..i + |pat|] == s[i + 1..i + 1 + |pat|];
        assert OccursAt(s, i + 1, pat);
      } else {
        forall i | OccursAt(s, i, pat) ensures false {
          assert i != 0;
          assert s[1..][i - 1..i - 1 + |pat|] == s[i..i + |pat|];
          assert OccursAt(s[1..], i - 1, pat);
        }
      }
    }
  }

  function LowerChar(c: char): (d: char)
    ensures 'A' <= c <= 'Z' ==> 'a' <= d <= 'z'
    ensures !('A' <= c <= 'Z') ==> d == c
  {
    if 'A' <= c <= 'Z' then (c as int - 'A' as int + 'a' as int) as char else c
  }

  /** `s.toLowerCase()` on the ASCII letters. */
  function ToLower(s: string): (r: string)
    ensures |r| == |s|
    ensures forall i :: 0 <= i < |s| ==> r[i] == LowerChar(s[i])
  {
    if |s| == 0 then "" else [LowerChar(s[0])] + ToLower(s[1..])
  }

  lemma ToLowerIdempotent(s: string)
    ensures ToLower(ToLower(s)) == ToLower(s)
  {
    var t := ToLower(s);
    assert forall i :: 0 <= i < |s| ==> LowerChar(t[i]) == t[i];
  }

  function DigitChar(d: nat): char
    requires d < 10
  {
    ('0' as int + d) as char
  }

  predicate IsDigit(c: char) {
    '0' <= c <= '9'
  }

  function DigitValue(c: char): (d: nat)
    requires IsDigit(c)
    ensures d < 10
  {
    c as int - '0' as int
  }

  /** `String(n)` for a natural number: its decimal digits. */
  function NatToString(n: nat): (s: string)
    ensures |s| >= 1
    ensures forall i :: 0 <= i < |s| ==> IsDigit(s[i])
    ensures n >= 10 ==> s[0] != '0'
  {
    if n < 10 then [DigitChar(n)] else NatToString(n / 10) + [DigitChar(n % 10)]
  }

  /** The value of a non-empty string of decimal digits. */
  function ParseNat(s: string): (r: Option<nat>)
    ensures r.Some? <==> |s| >= 1 && forall i :: 0 <= i < |s| ==> IsDigit(s[i])
  {
    if |s| == 0 then None
    else if !IsDigit(s[|s| - 1]) then None
    else if |s| == 1 then Some(DigitValue(s[0]))
    else match ParseNat(s[..|s| - 1])
      case None => None
      case Some(v) => Some(v * 10 + DigitValue(s[|s| - 1]))
  }

  lemma {:induction false} ParseNatToString(n: nat)
    ensures ParseNat(NatToString(n)) == Some(n)
  {
    if n >= 10 {
      ParseNatToString(n / 10);
      var s := NatToString(n);
      assert s[..|s| - 1] == NatToString(n / 10);
      assert DigitValue(s[|s| - 1]) == n % 10;
    }
  }
}
