/**
 * The pieces of Rust's string library that the ping-pong server leans on,
 * written out so that their behaviour is part of the model: substring search
 * (`str::find`), line splitting (`str::lines`), whitespace trimming
 * (`str::trim`), case folding (restricted to ASCII), UTF-8 encoding (what
 * `String::len` and `as_bytes` measure and send) and decimal formatting of a
 * length (`{}` on a `usize`).
 */
module Text {

  datatype Option<+T> = None | Some(value: T)

  /** One octet on the wire. */
  type byte = x: int | 0 <= x < 256

  // ---------------------------------------------------------------------
  // Substring search
  // ---------------------------------------------------------------------

  /** `p` occurs in `s` at index `k`. */
  predicate OccursAt<T(==)>(s: seq<T>, p: seq<T>, k: int)
  {
    0 <= k && k + |p| <= |s| && s[k..k + |p|] == p
  }

  /** The index of the first occurrence of `p` in `s`, or `None` when `p` does
      not occur; `str::find` with a string pattern. */
  function Find<T(==)>(s: seq<T>, p: seq<T>): (r: Option<nat>)
    ensures r.Some? ==> OccursAt(s, p, r.value)
    ensures r.Some? ==> forall k :: 0 <= k < r.value ==> !OccursAt(s, p, k)
    ensures r.None? ==> forall k :: !OccursAt(s, p, k)
  {
    FindFrom(s, p, 0)
  }

  /** The first occurrence of `p` in `s` at an index no smaller than `i`. */
  function FindFrom<T(==)>(s: seq<T>, p: seq<T>, i: nat): (r: Option<nat>)
    ensures r.Some? ==> i <= r.value && OccursAt(s, p, r.value)
    ensures r.Some? ==> forall k :: i <= k < r.value ==> !OccursAt(s, p, k)
    ensures r.None? ==> forall k :: i <= k ==> !OccursAt(s, p, k)
    decreases |s| - i
  {
    if |s| < i + |p| then None
    else if s[i..i + |p|] == p then Some(i)
    else FindFrom(s, p, i + 1)
  }

  /** An occurrence with none before it is the one `Find` reports. */
  lemma FindIsFirst<T>(s: seq<T>, p: seq<T>, k: nat)
    requires OccursAt(s, p, k)
    requires forall j :: 0 <= j < k ==> !OccursAt(s, p, j)
    ensures Find(s, p) == Some(k)
  {
  }

  /** An occurrence inside the right operand of a concatenation is an
      occurrence in the whole, shifted by the length of the left operand. */
  lemma OccursAtShift<T>(a: seq<T>, b: seq<T>, p: seq<T>, j: int)
    requires 0 <= j
    ensures OccursAt(a + b, p, |a| + j) <==> OccursAt(b, p, j)
  {
    if j + |p| <= |b| {
      assert (a + b)[|a| + j..|a| + j + |p|] == b[j..j + |p|];
    }
  }

  /** A one-element pattern occurs exactly where that element sits. */
  lemma OccursAtSingle<T>(s: seq<T>, x: T, k: int)
    ensures OccursAt(s, [x], k) <==> 0 <= k < |s| && s[k] == x
  {
    if 0 <= k < |s| {
      assert s[k..k + 1] == [s[k]];
    }
  }

  /** `Find` of a single element: its first position, or `None` when absent. */
  lemma FindSingle<T>(s: seq<T>, x: T)
    ensures Find(s, [x]).None? <==> x !in s
    ensures Find(s, [x]).Some? ==>
      var k := Find(s, [x]).value; k < |s| && s[k] == x && x !in s[..k]
  {
    var r := Find(s, [x]);
    if r.Some? {
      OccursAtSingle(s, x, r.value);
      forall j | 0 <= j < r.value ensures s[j] != x {
        OccursAtSingle(s, x, j);
      }
    } else if x in s {
      var j :| 0 <= j < |s| && s[j] == x;
      OccursAtSingle(s, x, j);
    }
  }

  // ---------------------------------------------------------------------
  // Header blocks: lines each followed by a terminator
  // ---------------------------------------------------------------------

  /** Every line followed by the terminator `eol`. */
  function Terminated<T>(lines: seq<seq<T>>, eol: seq<T>): (block: seq<T>)
  {
    if lines == [] then [] else lines[0] + eol + Terminated(lines[1..], eol)
  }

  /** The lines of a header block: none is empty and none holds the first
      element `cr` of the terminator. */
  ghost predicate HeaderLines<T>(lines: seq<seq<T>>, cr: T)
  {
    forall i :: 0 <= i < |lines| ==> lines[i] != [] && cr !in lines[i]
  }

  /** `k` is the first place where `p` occurs in `s`. */
  ghost predicate FirstAt<T>(s: seq<T>, p: seq<T>, k: int)
  {
    OccursAt(s, p, k) && forall j :: 0 <= j < k ==> !OccursAt(s, p, j)
  }

  /** A mismatch at offset `d` rules out an occurrence at `j`. */
  lemma Mismatch<T>(s: seq<T>, p: seq<T>, j: int, d: int)
    requires 0 <= j && 0 <= d < |p| && j + d < |s| && s[j + d] != p[d]
    ensures !OccursAt(s, p, j)
  {
  }

  /** A first occurrence in `t` stays first behind a prefix `a` in which no
      occurrence starts. */
  lemma FirstAtShift<T>(a: seq<T>, t: seq<T>, p: seq<T>, m: int)
    requires FirstAt(t, p, m)
    requires forall j :: 0 <= j < |a| ==> !OccursAt(a + t, p, j)
    ensures FirstAt(a + t, p, |a| + m)
  {
    OccursAtShift(a, t, p, m);
    forall j | |a| <= j < |a| + m ensures !OccursAt(a + t, p, j) {
      OccursAtShift(a, t, p, j - |a|);
    }
  }

  /** No occurrence of a pattern starting with `cr` begins inside a prefix
      free of `cr`. */
  lemma FirstAtAfterLine<T>(line: seq<T>, u: seq<T>, p: seq<T>, m: int)
    requires p != [] && p[0] !in line && FirstAt(u, p, m)
    ensures FirstAt(line + u, p, |line| + m)
  {
    forall j | 0 <= j < |line| ensures !OccursAt(line + u, p, j) {
      assert (line + u)[j] == line[j];
      Mismatch(line + u, p, j, 0);
    }
    FirstAtShift(line, u, p, m);
  }

  /** A `cr lf` followed by a non-blank line cannot begin a `cr lf cr lf`. */
  lemma FirstAtAfterEol<T>(cr: T, lf: T, t: seq<T>, m: int)
    requires cr != lf && t != [] && t[0] != cr && FirstAt(t, [cr, lf, cr, lf], m)
    ensures FirstAt([cr, lf] + t, [cr, lf, cr, lf], 2 + m)
  {
    var u, p := [cr, lf] + t, [cr, lf, cr, lf];
    assert u[2] == t[0] && u[1] == lf;
    Mismatch(u, p, 0, 2);
    Mismatch(u, p, 1, 0);
    FirstAtShift([cr, lf], t, p, m);
  }

  /** In a non-empty block of header lines terminated by `cr lf`, followed by
      one more `cr lf` and anything at all, the first `cr lf cr lf` is the
      blank line that closes the block. */
  lemma {:induction false} BlankLineIsFirst<T>(lines: seq<seq<T>>, cr: T, lf: T, rest: seq<T>)
    requires cr != lf && lines != [] && HeaderLines(lines, cr)
    ensures FirstAt(Terminated(lines, [cr, lf]) + [cr, lf] + rest, [cr, lf, cr, lf],
                    |Terminated(lines, [cr, lf])| - 2)
    decreases |lines|
  {
    var eol, p := [cr, lf], [cr, lf, cr, lf];
    var line, r := lines[0], Terminated(lines[1..], eol);
    var t := r + eol + rest;
    var u := eol + t;
    assert Terminated(lines, eol) + eol + rest == line + u;
    if |lines| == 1 {
      assert lines[1..] == [];
      assert u == p + rest;
      assert FirstAt(u, p, 0);
    } else {
      assert HeaderLines(lines[1..], cr) by {
        forall i | 0 <= i < |lines| - 1 ensures lines[1..][i] == lines[i + 1] { }
      }
      BlankLineIsFirst(lines[1..], cr, lf, rest);
      assert r == lines[1] + eol + Terminated(lines[2..], eol) by {
        assert lines[1..][0] == lines[1] && lines[1..][1..] == lines[2..];
      }
      assert lines[1] != [] && cr !in lines[1];
      assert t[0] == lines[1][0];
      FirstAtAfterEol(cr, lf, t, |r| - 2);
    }
    assert line != [] && cr !in line;
    FirstAtAfterLine(line, u, p, |r|);
  }

  /** `Find` reports the blank line that closes a header block. */
  lemma BlankLineEndsBlock<T>(lines: seq<seq<T>>, cr: T, lf: T, rest: seq<T>)
    requires cr != lf && lines != [] && HeaderLines(lines, cr)
    ensures Find(Terminated(lines, [cr, lf]) + [cr, lf] + rest, [cr, lf, cr, lf])
         == Some(|Terminated(lines, [cr, lf])| - 2)
  {
    BlankLineIsFirst(lines, cr, lf, rest);
    var s := Terminated(lines, [cr, lf]) + [cr, lf] + rest;
    FindIsFirst(s, [cr, lf, cr, lf], |Terminated(lines, [cr, lf])| - 2);
  }

  // ---------------------------------------------------------------------
  // Lines, as `str::lines` splits them
  // ---------------------------------------------------------------------

  /** Drops one carriage return at the end of a line that was ended by "\n". */
  function StripCr(line: string): (r: string)
    ensures r == line || (line == r + "\r")
  {
    if line != [] && line[|line| - 1] == '\r' then line[..|line| - 1] else line
  }

  /** The lines of `s`: split after every "\n", drop that "\n" and then one
      "\r" before it. A final line without a terminator is kept as it is
      (including a lone "\r" at its end), and the empty string has no lines. */
  function Lines(s: string): (ls: seq<string>)
    ensures ls == [] <==> s == []
    ensures forall i :: 0 <= i < |ls| ==> '\n' !in ls[i]
    decreases |s|
  {
    if s == [] then []
    else
      match Find(s, "\n")
      case None =>
        FindSingle(s, '\n');
        [s]
      case Some(k) =>
        FindSingle(s, '\n');
        [StripCr(s[..k])] + Lines(s[k + 1..])
  }

  /** The last line of `s`, or "" when it has none: `lines().last().unwrap_or("")`. */
  function LastLine(s: string): (line: string)
    ensures s == [] ==> line == []
    ensures '\n' !in line
  {
    var ls := Lines(s);
    if ls == [] then "" else ls[|ls| - 1]
  }

  /** Splitting at the first "\n". */
  lemma LinesCons(a: string, b: string)
    requires '\n' !in a
    ensures Lines(a + "\n" + b) == [StripCr(a)] + Lines(b)
  {
    var s := a + "\n" + b;
    FindSingle(s, '\n');
    assert s[|a|] == '\n';
    assert '\n' in s;
    var k := Find(s, "\n").value;
    assert s[..k] == a[..k];
    assert k == |a|;
    assert s[..k] == a && s[k + 1..] == b;
  }

  /** A string without a line feed is one line. */
  lemma LinesOfOneLine(s: string)
    requires s != [] && '\n' !in s
    ensures Lines(s) == [s]
  {
    FindSingle(s, '\n');
  }

  /** A text holding a line feed is its first line, a "\n" and the rest. */
  lemma SplitAtFirstNewline(s: string) returns (a: string, b: string)
    requires '\n' in s
    ensures '\n' !in a && s == a + "\n" + b
    ensures |a| < |s| && b == s[|a| + 1..]
  {
    FindSingle(s, '\n');
    var k := Find(s, "\n").value;
    a, b := s[..k], s[k + 1..];
    assert s == a + "\n" + b;
  }

  /** The last line after a "\n" that precedes a non-empty rest is the last
      line of that rest. */
  lemma LastLineCons(a: string, b: string)
    requires '\n' !in a && b != []
    ensures LastLine(a + "\n" + b) == LastLine(b)
  {
    LinesCons(a, b);
  }

  /** The last line of a string whose final line is unterminated is that line. */
  lemma {:induction false} LastLineUnterminated(p: string, q: string)
    requires q != [] && '\n' !in q
    ensures LastLine(p + "\n" + q) == q
    decreases |p|
  {
    if '\n' in p {
      var a, b := SplitAtFirstNewline(p);
      assert p + "\n" + q == a + "\n" + (b + "\n" + q);
      LastLineCons(a, b + "\n" + q);
      LastLineUnterminated(b, q);
    } else {
      LastLineCons(p, q);
      LinesOfOneLine(q);
    }
  }

  /** The last line of a single terminated line is a prefix of it. */
  lemma LastLineOfLineIsPrefix(a: string) returns (j: nat)
    requires '\n' !in a
    ensures j <= |a| && LastLine(a + "\n") == a[..j]
  {
    LastLineOfLine(a);
    j := |StripCr(a)|;
  }

  /** A text without a line feed is its own last line ("" for ""). */
  lemma LastLineWithoutNewline(s: string)
    requires '\n' !in s
    ensures LastLine(s) == s
  {
    if s != [] {
      LinesOfOneLine(s);
    }
  }

  /** A slice of the rest after the first line that is its last line is a
      slice of the whole text that is its last line. */
  lemma LastLineSliceAfter(a: string, b: string, i': nat, j': nat) returns (i: nat, j: nat)
    requires '\n' !in a && b != [] && i' <= j' <= |b| && LastLine(b) == b[i'..j']
    ensures i <= j <= |a + "\n" + b| && LastLine(a + "\n" + b) == (a + "\n" + b)[i..j]
  {
    LastLineCons(a, b);
    var c := a + "\n" + b;
    i, j := |a| + 1 + i', |a| + 1 + j';
    assert |c[i..j]| == |b[i'..j']|;
    forall k | 0 <= k < j' - i' ensures c[i..j][k] == b[i'..j'][k] {
      assert c[i + k] == b[i' + k];
    }
  }

  /** The last line is a contiguous piece of the text. */
  lemma {:induction false} LastLineIsSlice(s: string) returns (i: nat, j: nat)
    ensures i <= j <= |s| && LastLine(s) == s[i..j]
    decreases |s|
  {
    if '\n' !in s {
      LastLineWithoutNewline(s);
      i, j := 0, |s|;
      assert s[i..j] == s;
    } else {
      var a, b := SplitAtFirstNewline(s);
      if b == [] {
        j := LastLineOfLineIsPrefix(a);
        i := 0;
        assert a[..j] == s[..j];
      } else {
        var i', j' := LastLineIsSlice(b);
        i, j := LastLineSliceAfter(a, b, i', j');
      }
    }
  }

  /** A single terminated line is the last line, without its terminator. */
  lemma LastLineOfLine(q: string)
    requires '\n' !in q
    ensures LastLine(q + "\n") == StripCr(q)
  {
    LinesCons(q, "");
    assert q + "\n" == q + "\n" + "";
  }

  /** The last line of a string that ends with "\n" is the text after the
      preceding "\n", without its line terminator. */
  lemma {:induction false} LastLineTerminated(p: string, q: string)
    requires '\n' !in q
    ensures LastLine(p + "\n" + q + "\n") == StripCr(q)
    decreases |p|
  {
    var rest := q + "\n";
    if '\n' in p {
      var a, b := SplitAtFirstNewline(p);
      assert p + "\n" + q + "\n" == a + "\n" + (b + "\n" + q + "\n");
      LastLineCons(a, b + "\n" + q + "\n");
      LastLineTerminated(b, q);
    } else {
      assert p + "\n" + q + "\n" == p + "\n" + rest;
      LastLineCons(p, rest);
      LastLineOfLine(q);
    }
  }

  /** A trailing "\n" does not add an empty final line. */
  lemma {:induction false} TrailingNewlineAddsNoLine(s: string)
    requires s != [] && s[|s| - 1] != '\n' && s[|s| - 1] != '\r'
    ensures Lines(s + "\n") == Lines(s)
    decreases |s|
  {
    if '\n' in s {
      var a, b := SplitAtFirstNewline(s);
      assert b != [] && b[|b| - 1] == s[|s| - 1];
      assert s + "\n" == a + "\n" + (b + "\n");
      LinesCons(a, b + "\n");
      LinesCons(a, b);
      TrailingNewlineAddsNoLine(b);
    } else {
      LinesCons(s, "");
      LinesOfOneLine(s);
    }
  }

  // ---------------------------------------------------------------------
  // Whitespace trimming, as `str::trim` does it
  // ---------------------------------------------------------------------

  /** The characters with the Unicode White_Space property, which is what
      `char::is_whitespace` tests. */
  predicate IsWhitespace(c: char)
  {
    || ('\t' <= c <= '\r')
    || c == ' '
    || c == '\U{0085}'
    || c == '\U{00A0}'
    || c == '\U{1680}'
    || ('\U{2000}' <= c <= '\U{200A}')
    || c == '\U{2028}'
    || c == '\U{2029}'
    || c == '\U{202F}'
    || c == '\U{205F}'
    || c == '\U{3000}'
  }

  /** `s` without its leading whitespace. */
  function TrimStart(s: string): (r: string)
    ensures |r| <= |s| && r == s[|s| - |r|..]
    ensures forall i :: 0 <= i < |s| - |r| ==> IsWhitespace(s[i])
    ensures r == [] || !IsWhitespace(r[0])
  {
    if s != [] && IsWhitespace(s[0]) then TrimStart(s[1..]) else s
  }

  /** `s` without its trailing whitespace. */
  function TrimEnd(s: string): (r: string)
    ensures |r| <= |s| && r == s[..|r|]
    ensures forall i :: |r| <= i < |s| ==> IsWhitespace(s[i])
    ensures r == [] || !IsWhitespace(r[|r| - 1])
  {
    if s != [] && IsWhitespace(s[|s| - 1]) then TrimEnd(s[..|s| - 1]) else s
  }

  /** `s` without leading and trailing whitespace. */
  function Trim(s: string): (r: string)
    ensures |r| <= |s|
    ensures r == [] || (!IsWhitespace(r[0]) && !IsWhitespace(r[|r| - 1]))
  {
    TrimEnd(TrimStart(s))
  }

  /** `Trim(s)` is the slice of `s` that remains after removing the maximal
      whitespace prefix and suffix: every removed character is whitespace (and,
      by the contract of `Trim`, the kept text neither starts nor ends with
      whitespace). */
  lemma TrimIsSlice(s: string) returns (i: nat)
    ensures i + |Trim(s)| <= |s| && Trim(s) == s[i..i + |Trim(s)|]
    ensures forall k :: 0 <= k < i ==> IsWhitespace(s[k])
    ensures forall k :: i + |Trim(s)| <= k < |s| ==> IsWhitespace(s[k])
  {
    var t := TrimStart(s);
    var r := TrimEnd(t);
    assert Trim(s) == r;
    i := |s| - |t|;
    PrefixOfSuffix(s, i, r);
  }

  /** A prefix `r` of the suffix of `s` from `i` is the slice of `s` from `i`. */
  lemma PrefixOfSuffix<T>(s: seq<T>, i: nat, r: seq<T>)
    requires i <= |s| && |r| <= |s| - i && r == s[i..][..|r|]
    ensures i + |r| <= |s| && r == s[i..i + |r|]
    ensures forall k :: i + |r| <= k < |s| ==> s[k] == s[i..][k - i]
    ensures r != [] ==> r[0] == s[i..][0]
  {
  }

  /** A string that neither starts nor ends with whitespace is unchanged. */
  lemma TrimKeepsTrimmed(s: string)
    requires s == [] || (!IsWhitespace(s[0]) && !IsWhitespace(s[|s| - 1]))
    ensures Trim(s) == s
  {
    if s != [] {
      assert TrimStart(s) == s;
    }
  }

  /** Trimming twice is trimming once. */
  lemma TrimIdempotent(s: string)
    ensures Trim(Trim(s)) == Trim(s)
  {
    var r := Trim(s);
    if r != [] {
      var _ := TrimIsSlice(s);
      assert TrimStart(r) == r;
      assert TrimEnd(r) == r;
    }
  }

  // ---------------------------------------------------------------------
  // ASCII case folding
  // ---------------------------------------------------------------------

  /** Maps 'A'..'Z' to 'a'..'z' and leaves every other character alone. */
  function LowerChar(c: char): (d: char)
    ensures 'A' <= c <= 'Z' ==> 'a' <= d <= 'z' && d as int - c as int == 32
    ensures !('A' <= c <= 'Z') ==> d == c
  {
    if 'A' <= c <= 'Z' then (c as int + 32) as char else c
  }

  /** `s` with every ASCII upper-case letter lowered. */
  function AsciiLower(s: string): (r: string)
    ensures |r| == |s|
    ensures forall i :: 0 <= i < |s| ==> r[i] == LowerChar(s[i])
  {
    if s == [] then [] else [LowerChar(s[0])] + AsciiLower(s[1..])
  }

  /** A lower-case letter is produced exactly by itself and by its capital. */
  lemma LowerCharInverse(c: char, x: char)
    requires 'a' <= x <= 'z'
    ensures LowerChar(c) == x <==> c == x || c as int == x as int - 32
  {
  }

  /** `s` lowers to the lower-case word `w` exactly when `s` spells `w` with
      any mix of capitals. */
  lemma {:induction false} AsciiLowerMatches(s: string, w: string)
    requires forall i :: 0 <= i < |w| ==> 'a' <= w[i] <= 'z'
    ensures AsciiLower(s) == w <==>
      |s| == |w| && forall i :: 0 <= i < |s| ==> s[i] == w[i] || s[i] as int == w[i] as int - 32
  {
    if |s| == |w| {
      forall i | 0 <= i < |s| ensures LowerChar(s[i]) == w[i] <==> s[i] == w[i] || s[i] as int == w[i] as int - 32 {
        LowerCharInverse(s[i], w[i]);
      }
      if forall i :: 0 <= i < |s| ==> LowerChar(s[i]) == w[i] {
        assert AsciiLower(s) == w;
      }
    }
  }

  // ---------------------------------------------------------------------
  // UTF-8 encoding
  // ---------------------------------------------------------------------

  /** The UTF-8 encoding of one Unicode scalar value. */
  function Utf8Char(c: char): (b: seq<byte>)
    ensures 1 <= |b| <= 4
    ensures |b| == 1 <==> c as int < 0x80
    ensures |b| == 1 ==> b[0] == c as int
    ensures |b| > 1 ==> forall i :: 0 <= i < |b| ==> 0x80 <= b[i]
  {
    var n := c as int;
    if n < 0x80 then [n]
    else if n < 0x800 then [0xC0 + n / 0x40, 0x80 + n % 0x40]
    else if n < 0x1_0000 then [0xE0 + n / 0x1000, 0x80 + (n / 0x40) % 0x40, 0x80 + n % 0x40]
    else [0xF0 + n / 0x4_0000, 0x80 + (n / 0x1000) % 0x40, 0x80 + (n / 0x40) % 0x40, 0x80 + n % 0x40]
  }

  /** The UTF-8 encoding of a string: the bytes of a Rust `String`. */
  function Utf8(s: string): (b: seq<byte>)
    ensures |s| <= |b| <= 4 * |s|
  {
    if s == [] then [] else Utf8Char(s[0]) + Utf8(s[1..])
  }

  /** Encoding distributes over concatenation. */
  lemma {:induction false} Utf8Append(a: string, b: string)
    ensures Utf8(a + b) == Utf8(a) + Utf8(b)
    decreases |a|
  {
    if a == [] {
      assert a + b == b;
    } else {
      assert (a + b)[0] == a[0] && (a + b)[1..] == a[1..] + b;
      assert Utf8(a + b) == Utf8Char(a[0]) + Utf8(a[1..] + b);
      assert Utf8(a) == Utf8Char(a[0]) + Utf8(a[1..]);
      Utf8Append(a[1..], b);
    }
  }

  /** Encoding a block of terminated lines line by line. */
  lemma {:induction false} Utf8Terminated(lines: seq<string>)
    ensures Utf8(Terminated(lines, "\r\n"))
         == Terminated(seq(|lines|, i requires 0 <= i < |lines| => Utf8(lines[i])), [13, 10])
    decreases |lines|
  {
    var encoded := seq(|lines|, i requires 0 <= i < |lines| => Utf8(lines[i]));
    if lines != [] {
      Utf8Terminated(lines[1..]);
      assert encoded[1..] == seq(|lines| - 1, i requires 0 <= i < |lines| - 1 => Utf8(lines[1..][i]));
      Utf8Append(lines[0] + "\r\n", Terminated(lines[1..], "\r\n"));
      Utf8Append(lines[0], "\r\n");
      assert Utf8("\r\n") == [13, 10];
    }
  }

  /** The bytes of a control character occur in an encoding only where that
      character occurs: multi-byte sequences use bytes from 0x80 up. */
  lemma {:induction false} Utf8Ascii(s: string, c: char)
    requires c as int < 0x80
    ensures c in s <==> c as int in Utf8(s)
    decreases |s|
  {
    if s != [] {
      Utf8Ascii(s[1..], c);
      assert s == [s[0]] + s[1..];
    }
  }

  /** A string of ASCII characters has as many bytes as characters. */
  lemma {:induction false} Utf8LengthAscii(s: string)
    requires forall i :: 0 <= i < |s| ==> s[i] as int < 0x80
    ensures |Utf8(s)| == |s|
    decreases |s|
  {
    if s != [] {
      Utf8LengthAscii(s[1..]);
    }
  }

  // ---------------------------------------------------------------------
  // Decimal numerals
  // ---------------------------------------------------------------------

  predicate IsDigit(c: char)
  {
    '0' <= c <= '9'
  }

  function DigitChar(d: nat): (c: char)
    requires d < 10
    ensures IsDigit(c) && c as int - '0' as int == d
  {
    ('0' as int + d) as char
  }

  /** `n` in decimal without leading zeros, as Rust's `{}` prints a `usize`. */
  function Decimal(n: nat): (d: string)
    ensures d != []
    ensures forall i :: 0 <= i < |d| ==> IsDigit(d[i])
    ensures |d| > 1 ==> d[0] != '0'
  {
    if n < 10 then [DigitChar(n)] else Decimal(n / 10) + [DigitChar(n % 10)]
  }

  /** The value of a string of decimal digits. */
  function DigitsValue(s: string): (n: nat)
    requires forall i :: 0 <= i < |s| ==> IsDigit(s[i])
  {
    if s == [] then 0
    else
      assert IsDigit(s[|s| - 1]);
      10 * DigitsValue(s[..|s| - 1]) + (s[|s| - 1] as int - '0' as int)
  }

  /** Reads a non-empty run of decimal digits; anything else is rejected. */
  function ParseDecimal(s: string): (r: Option<nat>)
    ensures r.Some? <==> s != [] && forall i :: 0 <= i < |s| ==> IsDigit(s[i])
  {
    if s != [] && forall i :: 0 <= i < |s| ==> IsDigit(s[i]) then Some(DigitsValue(s)) else None
  }

  /** Reading back a printed number gives the number. */
  lemma {:induction false} ParseDecimalOfDecimal(n: nat)
    ensures ParseDecimal(Decimal(n)) == Some(n)
  {
    var d := Decimal(n);
    if n < 10 {
      assert d[..|d| - 1] == [] && DigitsValue(d) == n;
    } else {
      ParseDecimalOfDecimal(n / 10);
      assert d[..|d| - 1] == Decimal(n / 10);
      assert DigitsValue(d) == 10 * (n / 10) + n % 10;
    }
  }
}
