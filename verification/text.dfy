/**
 * The JavaScript string primitives the HTTP layer is built from, over `string` (`seq<char>`):
 * `indexOf` of one character, `split` and `join` on a one-character separator, `trim`,
 * and the decimal rendering of a non-negative integer (`${n}`, which JavaScript prints
 * this way below 10^21).
 */
module Text {

  /** Index of the first `c` in `s`, or `|s|` when `s` has none. */
  function IndexOf(s: string, c: char): (i: nat)
    ensures i <= |s|
    ensures i < |s| ==> s[i] == c
    ensures forall k :: 0 <= k < i ==> s[k] != c
    ensures i == |s| <==> c !in s
  {
    if |s| == 0 then 0
    else if s[0] == c then 0
    else 1 + IndexOf(s[1..], c)
  }

  /** Searching a concatenation whose left part lacks `c` skips that part whole. */
  lemma {:induction false} IndexOfAppend(a: string, b: string, c: char)
    requires c !in a
    ensures IndexOf(a + b, c) == |a| + IndexOf(b, c)
    decreases |a|
  {
    if |a| == 0 {
      assert a + b == b;
    } else {
      assert (a + b)[0] == a[0];
      assert (a + b)[1..] == a[1..] + b;
      IndexOfAppend(a[1..], b, c);
    }
  }

  /**
   * `s.split(c)` in JavaScript: the pieces between the occurrences of `c`, in order;
   * the empty string gives one empty piece.
   */
  function Split(s: string, c: char): (parts: seq<string>)
    ensures |parts| >= 1
    ensures forall k :: 0 <= k < |parts| ==> c !in parts[k]
    decreases |s|
  {
    var i := IndexOf(s, c);
    if i == |s| then [s] else [s[..i]] + Split(s[i + 1..], c)
  }

  /** `parts.join(c)` in JavaScript. */
  function Join(parts: seq<string>, c: char): string
  {
    if |parts| == 0 then ""
    else if |parts| == 1 then parts[0]
    else parts[0] + [c] + Join(parts[1..], c)
  }

  /** A piece without the separator, then the separator: splitting peels that piece off. */
  lemma SplitCons(a: string, b: string, c: char)
    requires c !in a
    ensures Split(a + [c] + b, c) == [a] + Split(b, c)
  {
    var s := a + [c] + b;
    IndexOfAppend(a, [c] + b, c);
    assert s == a + ([c] + b);
    assert IndexOf(s, c) == |a|;
    assert s[..|a|] == a;
    assert s[|a| + 1..] == b;
  }

  /** A string without the separator is a single piece. */
  lemma SplitNone(s: string, c: char)
    requires c !in s
    ensures Split(s, c) == [s]
  {
  }

  /** Joining the pieces of a split gives back the original string. */
  lemma {:induction false} JoinSplit(s: string, c: char)
    ensures Join(Split(s, c), c) == s
    decreases |s|
  {
    var i := IndexOf(s, c);
    if i < |s| {
      var rest := s[i + 1..];
      var tail := Split(rest, c);
      JoinSplit(rest, c);
      var parts := [s[..i]] + tail;
      assert Split(s, c) == parts;
      assert parts[1..] == tail;
      assert Join(parts, c) == s[..i] + [c] + Join(tail, c);
      assert s == s[..i] + [c] + rest;
    }
  }

  /** Splitting the join of separator-free pieces gives back the pieces. */
  lemma {:induction false} SplitJoin(parts: seq<string>, c: char)
    requires |parts| >= 1
    requires forall k :: 0 <= k < |parts| ==> c !in parts[k]
    ensures Split(Join(parts, c), c) == parts
  {
    if |parts| == 1 {
      SplitNone(parts[0], c);
    } else {
      SplitJoin(parts[1..], c);
      SplitCons(parts[0], Join(parts[1..], c), c);
      assert [parts[0]] + parts[1..] == parts;
    }
  }

  /**
   * The characters JavaScript's `String.prototype.trim` removes: the ECMAScript
   * WhiteSpace set (tab, vertical tab, form feed, byte-order mark and every Unicode
   * space separator) together with the LineTerminator set (LF, CR, LS, PS).
   */
  predicate IsSpace(ch: char)
  {
    || '\t' <= ch <= '\r'                    // tab, line feed, vertical tab, form feed, carriage return
    || ch == ' ' || ch == '\U{00A0}' || ch == '\U{1680}'
    || '\U{2000}' <= ch <= '\U{200A}'        // en quad .. hair space
    || ch == '\U{2028}' || ch == '\U{2029}'  // line and paragraph separators
    || ch == '\U{202F}' || ch == '\U{205F}' || ch == '\U{3000}' || ch == '\U{FEFF}'
  }

  /** Every character of `s` is white space (vacuously so for the empty string). */
  predicate AllSpace(s: string)
  {
    forall k :: 0 <= k < |s| ==> IsSpace(s[k])
  }

  /** `s` is empty or starts and ends with a character trim keeps. */
  predicate Trimmed(s: string)
  {
    |s| > 0 ==> !IsSpace(s[0]) && !IsSpace(s[|s| - 1])
  }

  /** `s` without its leading white space. */
  function TrimStart(s: string): (t: string)
    ensures |t| <= |s| && t == s[|s| - |t|..]
    ensures AllSpace(s[..|s| - |t|])
    ensures |t| > 0 ==> !IsSpace(t[0])
  {
    if |s| > 0 && IsSpace(s[0]) then TrimStart(s[1..]) else s
  }

  /** `s` without its trailing white space. */
  function TrimEnd(s: string): (t: string)
    ensures |t| <= |s| && t == s[..|t|]
    ensures AllSpace(s[|t|..])
    ensures |t| > 0 ==> !IsSpace(t[|t| - 1])
  {
    if |s| > 0 && IsSpace(s[|s| - 1]) then TrimEnd(s[..|s| - 1]) else s
  }

  /** `s.trim()`: `s` without its leading and trailing white space. */
  function Trim(s: string): (t: string)
    ensures Trimmed(t)
    ensures t == "" <==> AllSpace(s)
  {
    TrimEmptyOnlyForSpace(s);
    TrimEnd(TrimStart(s))
  }

  /** Trimming leaves nothing exactly when everything is white space. */
  lemma TrimEmptyOnlyForSpace(s: string)
    ensures TrimEnd(TrimStart(s)) == "" <==> AllSpace(s)
  {
    var u := TrimStart(s);
    var pre := s[..|s| - |u|];
    assert s == pre + u;
    if TrimEnd(u) == "" {
      assert u[0..] == u;
      AllSpaceAppend(pre, u);
    } else {
      NotAllSpace(s, |s| - |u|);
    }
  }

  /** A string with a character trim keeps is not all white space. */
  lemma NotAllSpace(s: string, k: nat)
    requires k < |s| && !IsSpace(s[k])
    ensures !AllSpace(s)
  {
  }

  /** White space followed by white space is white space. */
  lemma AllSpaceAppend(a: string, b: string)
    requires AllSpace(a) && AllSpace(b)
    ensures AllSpace(a + b)
  {
    forall k | 0 <= k < |a + b| ensures IsSpace((a + b)[k]) {
      if k < |a| { assert (a + b)[k] == a[k]; } else { assert (a + b)[k] == b[k - |a|]; }
    }
  }

  /**
   * Trim is the unique way to cut `s` into white space, a trimmed middle, and white
   * space: whichever such cut is given, its middle is `Trim(s)`.
   */
  lemma TrimUnique(pre: string, mid: string, post: string)
    requires AllSpace(pre) && AllSpace(post) && Trimmed(mid)
    ensures Trim(pre + mid + post) == mid
  {
    var s := pre + mid + post;
    if mid == "" {
      assert s == pre + post;
      AllSpaceAppend(pre, post);
    } else {
      TrimAroundMiddle(pre, mid, post);
    }
  }

  /** Trimming white space, a middle that starts and ends with kept characters, white space. */
  lemma TrimAroundMiddle(pre: string, mid: string, post: string)
    requires AllSpace(pre) && AllSpace(post)
    requires |mid| > 0 && !IsSpace(mid[0]) && !IsSpace(mid[|mid| - 1])
    ensures TrimEnd(TrimStart(pre + mid + post)) == mid
  {
    var rest := mid + post;
    assert rest[0] == mid[0];
    assert pre + mid + post == pre + rest;
    TrimStartSkips(pre, rest);
    TrimEndSkips(mid, post);
  }

  /** Trimming the start skips leading white space up to a kept character. */
  lemma {:induction false} TrimStartSkips(pre: string, rest: string)
    requires AllSpace(pre)
    requires |rest| > 0 ==> !IsSpace(rest[0])
    ensures TrimStart(pre + rest) == rest
    decreases |pre|
  {
    if |pre| > 0 {
      assert (pre + rest)[1..] == pre[1..] + rest;
      TrimStartSkips(pre[1..], rest);
    }
  }

  /** Trimming the end skips trailing white space back to a kept character. */
  lemma {:induction false} TrimEndSkips(rest: string, post: string)
    requires AllSpace(post)
    requires |rest| > 0 ==> !IsSpace(rest[|rest| - 1])
    ensures TrimEnd(rest + post) == rest
    decreases |post|
  {
    if |post| > 0 {
      assert (rest + post)[..|rest + post| - 1] == rest + post[..|post| - 1];
      TrimEndSkips(rest, post[..|post| - 1]);
    } else {
      assert rest + post == rest;
    }
  }

  /** A character trim keeps survives somewhere in the trimmed text. */
  lemma TrimKeepsNonSpace(s: string, k: nat)
    requires k < |s| && !IsSpace(s[k])
    ensures Trim(s) != ""
  {
  }

  /** Whether `ch` is one of the ASCII digits `0`..`9`. */
  predicate IsDigit(ch: char)
  {
    '0' <= ch <= '9'
  }

  /** The digit character of a value below ten. */
  function DigitChar(d: nat): (ch: char)
    requires d < 10
    ensures IsDigit(ch)
  {
    (('0' as int) + d) as char
  }

  /**
   * `${n}` for a non-negative integer below 10^21: its decimal digits, without leading
   * zeros. JavaScript switches to exponent form from 10^21 up; this function does not.
   */
  function ShowNat(n: nat): (s: string)
    ensures |s| >= 1
    ensures forall k :: 0 <= k < |s| ==> IsDigit(s[k])
    ensures |s| > 1 ==> s[0] != '0'
  {
    if n < 10 then [DigitChar(n)] else ShowNat(n / 10) + [DigitChar(n % 10)]
  }

  /** The value of a string of decimal digits. */
  function ReadNat(s: string): nat
    requires forall k :: 0 <= k < |s| ==> IsDigit(s[k])
  {
    if |s| == 0 then 0
    else 10 * ReadNat(s[..|s| - 1]) + DigitValue(s[|s| - 1])
  }

  /** The value of a digit character. */
  function DigitValue(ch: char): (d: nat)
    requires IsDigit(ch)
    ensures d < 10
  {
    (ch as int) - ('0' as int)
  }

  /** Reading the decimal rendering of `n` gives `n` back. */
  lemma {:induction false} ReadShowNat(n: nat)
    ensures ReadNat(ShowNat(n)) == n
  {
    if n >= 10 {
      ReadShowNat(n / 10);
      var s := ShowNat(n);
      assert s[..|s| - 1] == ShowNat(n / 10);
    }
  }

  /** A piece without the separator followed by nothing or by the separator is the first piece. */
  lemma SplitFirst(v: string, rest: string, c: char)
    requires c !in v
    requires rest == "" || rest[0] == c
    ensures Split(v + rest, c)[0] == v
  {
    if rest == "" {
      assert v + rest == v;
      SplitNone(v, c);
    } else {
      assert v + rest == v + [c] + rest[1..];
      SplitCons(v, rest[1..], c);
    }
  }

  /** The join of three or more pieces: the first three, then nothing or the separator and more. */
  lemma JoinOfThree(tokens: seq<string>, c: char) returns (rest: string)
    requires |tokens| >= 3
    ensures Join(tokens, c) == tokens[0] + [c] + tokens[1] + [c] + tokens[2] + rest
    ensures rest == "" || rest[0] == c
  {
    var u := tokens[1..];
    var w := tokens[2..];
    assert u[1..] == w;
    rest := if |tokens| == 3 then "" else [c] + Join(tokens[3..], c);
    assert Join(w, c) == tokens[2] + rest by {
      if |tokens| > 3 {
        assert w[1..] == tokens[3..];
      }
    }
    assert Join(u, c) == tokens[1] + [c] + Join(w, c);
    assert Join(tokens, c) == tokens[0] + [c] + Join(u, c);
  }

  // Regrouping concatenations. The solver proves each of these alone at once, but not
  // inside the larger contexts that use them.

  /** Regrouping a concatenation of three sequences. */
  lemma Assoc<T>(a: seq<T>, b: seq<T>, c: seq<T>)
    ensures a + b + c == a + (b + c)
  {
  }

  /** Regrouping a concatenation of four sequences. */
  lemma Regroup<T>(a: seq<T>, b: seq<T>, c: seq<T>, d: seq<T>)
    ensures a + b + c + d == a + (b + c + d)
  {
  }

  /** Regrouping a concatenation of five sequences. */
  lemma Regroup5<T>(a: seq<T>, b: seq<T>, c: seq<T>, d: seq<T>, e: seq<T>)
    ensures a + b + c + d + e == a + (b + c + d + e)
  {
  }

  /** Appending two elements one at a time appends the pair. */
  lemma AppendTwo<T>(h: seq<T>, x: T, y: T)
    ensures h + [x] + [y] == h + [x, y]
  {
  }

  /** Cutting `a + [c] + b` at its first `c` gives back `a` and `b`. */
  lemma CutAtFirst(a: string, c: char, b: string)
    requires c !in a
    ensures var s := a + [c] + b;
      IndexOf(s, c) == |a| && s[..|a|] == a && s[|a| + 1..] == b
  {
    var s := a + [c] + b;
    IndexOfAppend(a, [c] + b, c);
    assert s == a + ([c] + b);
  }
}
