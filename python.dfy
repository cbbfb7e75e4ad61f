/** The few Python built-ins the translator relies on: `None`, the exceptions it
    can raise, `str.strip()`, `str.startswith`, `str.split('//')[0]`,
    `str.split()`, `str(n)` for integers and `str.replace`. Strings are sequences
    of characters. */
module Python {

  /** A value that may be `None`. */
  datatype Option<T> = None | Some(value: T)

  /** How a call ends abnormally: an uncaught exception, or `sys.exit(status)`
      after printing the offending arguments. */
  datatype PyError =
    | IndexError
    | TypeError
    | UnboundLocalError(name: string)
    | Exit(status: int, args: seq<string>)

  datatype Result<T> = Ok(value: T) | Err(error: PyError)

  /** Python's `str.isspace()` for a single character. */
  predicate IsSpace(c: char) {
    c == ' ' || ('\t' <= c <= '\r') || ('\U{1C}' <= c <= '\U{1F}')
    || c == '\U{85}' || c == '\U{A0}' || c == '\U{1680}'
    || ('\U{2000}' <= c <= '\U{200A}') || c == '\U{2028}' || c == '\U{2029}'
    || c == '\U{202F}' || c == '\U{205F}' || c == '\U{3000}'
  }

  predicate IsDigit(c: char) { '0' <= c <= '9' }

  predicate AllDigits(s: string) { forall i :: 0 <= i < |s| ==> IsDigit(s[i]) }

  predicate NoSpace(s: string) { forall i :: 0 <= i < |s| ==> !IsSpace(s[i]) }

  /** No surrounding whitespace: what `strip()` leaves behind. */
  predicate Trimmed(s: string) { s == [] || (!IsSpace(s[0]) && !IsSpace(s[|s| - 1])) }

  /** True when `s` contains the two-character sequence "//" at some position. */
  predicate HasComment(s: string) {
    exists i :: 0 <= i < |s| - 1 && CommentAt(s, i)
  }

  /** A "//" starts at position i. */
  predicate CommentAt(s: string, i: int)
    requires 0 <= i < |s| - 1
  {
    s[i] == '/' && s[i + 1] == '/'
  }

  predicate StartsWith(s: string, prefix: string) {
    |prefix| <= |s| && s[..|prefix|] == prefix
  }

  /** The first position at or after `i` that holds no whitespace, or `|s|`. */
  function SkipSpace(s: string, i: nat): (k: nat)
    requires i <= |s|
    ensures i <= k <= |s|
    ensures forall j :: i <= j < k ==> IsSpace(s[j])
    ensures k < |s| ==> !IsSpace(s[k])
    decreases |s| - i
  {
    if i == |s| || !IsSpace(s[i]) then i else SkipSpace(s, i + 1)
  }

  /** The end of `s[..j]` once its trailing whitespace is dropped. */
  function TrimEnd(s: string, j: nat): (k: nat)
    requires j <= |s|
    ensures k <= j
    ensures forall i :: k <= i < j ==> IsSpace(s[i])
    ensures k > 0 ==> !IsSpace(s[k - 1])
    decreases j
  {
    if j == 0 || !IsSpace(s[j - 1]) then j else TrimEnd(s, j - 1)
  }

  /** `str.lstrip()`: drops leading whitespace. */
  function StripStart(s: string): (r: string)
    ensures |r| <= |s| && r == s[|s| - |r|..]
    ensures r == [] || !IsSpace(r[0])
    ensures forall i :: 0 <= i < |s| - |r| ==> IsSpace(s[i])
  {
    s[SkipSpace(s, 0)..]
  }

  /** `str.rstrip()`: drops trailing whitespace. */
  function StripEnd(s: string): (r: string)
    ensures |r| <= |s| && r == s[..|r|]
    ensures r == [] || !IsSpace(r[|r| - 1])
    ensures forall i :: |r| <= i < |s| ==> IsSpace(s[i])
  {
    s[..TrimEnd(s, |s|)]
  }

  /** `str.strip()`: the longest substring with no surrounding whitespace,
      obtained by removing only whitespace from either end. */
  function Strip(s: string): (r: string)
    ensures Trimmed(r)
    ensures |r| <= |s|
    ensures r == [] <==> forall i :: 0 <= i < |s| ==> IsSpace(s[i])
  {
    StripEmpty(s);
    StripEnd(StripStart(s))
  }

  lemma StripEmpty(s: string)
    ensures StripEnd(StripStart(s)) == [] <==> forall i :: 0 <= i < |s| ==> IsSpace(s[i])
  {
    var t := StripStart(s);
    if StripEnd(t) == [] {
      forall i | 0 <= i < |s| ensures IsSpace(s[i]) {
      }
    }
  }

  /** `strip()` removes whitespace only: its result is the slice of the input
      that starts after the leading whitespace. */
  lemma StripSlice(s: string)
    ensures |s| - |StripStart(s)| + |Strip(s)| <= |s|
    ensures Strip(s) == s[|s| - |StripStart(s)|..|s| - |StripStart(s)| + |Strip(s)|]
  {
    var t := StripStart(s);
    var r := StripEnd(t);
    assert r == t[..|r|];
  }

  /** StripSlice, at a given start. */
  lemma StripSliceAt(s: string, k: nat)
    requires k == |s| - |StripStart(s)|
    ensures k + |Strip(s)| <= |s| && Strip(s) == s[k..k + |Strip(s)|]
    ensures forall j :: k + |Strip(s)| <= j < |s| ==> IsSpace(s[j])
  {
    StripSlice(s);
    var t := StripStart(s);
    forall j | k + |Strip(s)| <= j < |s| ensures IsSpace(s[j]) {
      assert s[j] == t[j - k];
    }
  }

  /** A prefix of a suffix is a slice. */
  lemma SliceOfSlice(s: string, k: nat, t: string, r: string)
    requires k <= |s| && t == s[k..] && |r| <= |t| && r == t[..|r|]
    ensures k + |r| <= |s| && r == s[k..k + |r|]
  {
  }

  lemma StripTrimmed(s: string)
    requires Trimmed(s)
    ensures Strip(s) == s
  {
  }

  /** TrimEnd is pinned by its contract: the end once trailing whitespace is dropped. */
  lemma TrimEndAt(s: string, j: nat, m: nat)
    requires m <= j <= |s|
    requires forall i :: m <= i < j ==> IsSpace(s[i])
    requires m > 0 ==> !IsSpace(s[m - 1])
    ensures TrimEnd(s, j) == m
  {
  }

  /** `strip()` of a text between two runs of whitespace is that text. */
  lemma StripPadded(a: string, w: string, c: string)
    requires forall i :: 0 <= i < |a| ==> IsSpace(a[i])
    requires forall i :: 0 <= i < |c| ==> IsSpace(c[i])
    requires w != [] && Trimmed(w)
    ensures Strip(a + w + c) == w
  {
    var s := a + w + c;
    forall i | 0 <= i < |a| ensures IsSpace(s[i]) {
      assert s[i] == a[i];
    }
    assert s[|a|] == w[0];
    SkipSpaceAt(s, 0, |a|);
    assert StripStart(s) == w + c;
    var r := w + c;
    forall i | |w| <= i < |r| ensures IsSpace(r[i]) {
      assert r[i] == c[i - |w|];
    }
    assert r[|w| - 1] == w[|w| - 1];
    TrimEndAt(r, |r|, |w|);
    assert StripEnd(r) == w;
  }

  /** Where `str.split('//')[0]` ends: the first position of "//", or `|s|`. */
  function CommentStart(s: string): (k: nat)
    ensures k <= |s|
    ensures k < |s| ==> k + 1 < |s| && s[k] == '/' && s[k + 1] == '/'
    ensures !HasComment(s[..k])
    // The first "//": none starts before position k.
    ensures k < |s| ==> !HasComment(s[..k + 1])
    decreases |s|
  {
    if |s| < 2 then |s|
    else if s[0] == '/' && s[1] == '/' then 0
    else
      var k := 1 + CommentStart(s[1..]);
      assert s[..k] == [s[0]] + s[1..][..k - 1];
      NoCommentCons(s[0], s[1..][..k - 1]);
      if k < |s| then
        assert s[..k + 1] == [s[0]] + s[1..][..k];
        NoCommentCons(s[0], s[1..][..k]);
        k
      else k
  }

  /** Putting a character in front of a string without "//" creates one only
      when the character and the first one are both '/'. */
  lemma NoCommentCons(c: char, t: string)
    requires !HasComment(t) && !(c == '/' && |t| > 0 && t[0] == '/')
    ensures !HasComment([c] + t)
  {
    var s := [c] + t;
    forall i | 0 <= i < |s| - 1 ensures !CommentAt(s, i) {
      if i > 0 {
        assert s[i] == t[i - 1] && s[i + 1] == t[i];
        assert !CommentAt(t, i - 1);
      }
    }
  }

  /** Appending a character other than '/' to a string without "//" creates none. */
  lemma NoCommentSnoc(t: string, c: char)
    requires !HasComment(t) && c != '/'
    ensures !HasComment(t + [c])
  {
    var s := t + [c];
    forall i | 0 <= i < |s| - 1 ensures !CommentAt(s, i) {
      if i < |t| - 1 {
        assert s[i] == t[i] && s[i + 1] == t[i + 1];
        assert !CommentAt(t, i);
      } else {
        assert s[i + 1] == c;
      }
    }
  }

  lemma CommentStartNone(s: string)
    requires !HasComment(s)
    ensures CommentStart(s) == |s|
  {
    var k := CommentStart(s);
    assert k < |s| ==> !CommentAt(s, k);
  }

  /** A substring of a string without "//" has no "//" either. */
  lemma NoCommentInSlice(s: string, k: nat, n: nat)
    requires k + n <= |s| && !HasComment(s)
    ensures !HasComment(s[k..k + n])
  {
    var t := s[k..k + n];
    forall i | 0 <= i < |t| - 1 ensures !CommentAt(t, i) {
      assert t[i] == s[k + i] && t[i + 1] == s[k + i + 1];
      assert !CommentAt(s, k + i);
    }
  }

  /** Python's `str.split()` with no argument: the maximal runs of non-whitespace. */
  function Words(s: string): (r: seq<string>)
    ensures StripStart(s) != [] ==> |r| > 0
    decreases |s|
  {
    var t := StripStart(s);
    if t == [] then []
    else
      var k := WordEnd(t);
      [t[..k]] + Words(t[k..])
  }

  /** A word: non-empty, without whitespace. */
  predicate IsWord(w: string) { w != [] && NoSpace(w) }

  /** Every word `split()` yields is non-empty and holds no whitespace. */
  lemma {:induction false} WordsTrimmed(s: string)
    ensures forall i :: 0 <= i < |Words(s)| ==> IsWord(Words(s)[i])
    decreases |s|
  {
    var t := StripStart(s);
    if t != [] {
      var k := WordEnd(t);
      WordsTrimmed(t[k..]);
      AllWordsCons(t[..k], Words(t[k..]));
      assert Words(s) == [t[..k]] + Words(t[k..]);
    }
  }

  lemma AllWordsCons(head: string, rest: seq<string>)
    requires IsWord(head) && forall i :: 0 <= i < |rest| ==> IsWord(rest[i])
    ensures forall i :: 0 <= i < |[head] + rest| ==> IsWord(([head] + rest)[i])
  {
    forall i | 0 <= i < |[head] + rest| ensures IsWord(([head] + rest)[i]) {
      if i > 0 {
        assert ([head] + rest)[i] == rest[i - 1];
      }
    }
  }

  /** The length of the leading run of non-whitespace of `t`. */
  function WordEnd(t: string): (k: nat)
    requires t != [] && !IsSpace(t[0])
    ensures 0 < k <= |t|
    ensures NoSpace(t[..k])
    ensures k < |t| ==> IsSpace(t[k])
    decreases |t|
  {
    if |t| == 1 || IsSpace(t[1]) then 1
    else
      var k := 1 + WordEnd(t[1..]);
      assert t[..k] == [t[0]] + t[1..][..k - 1];
      k
  }

  /** SkipSpace is pinned by its contract: the first non-whitespace position at
      or after `i`. */
  lemma SkipSpaceAt(s: string, i: nat, m: nat)
    requires i <= m <= |s|
    requires forall j :: i <= j < m ==> IsSpace(s[j])
    requires m < |s| ==> !IsSpace(s[m])
    ensures SkipSpace(s, i) == m
  {
  }

  /** WordEnd is pinned by its contract: the end of the leading run. */
  lemma WordEndAt(t: string, m: nat)
    requires t != [] && !IsSpace(t[0]) && 0 < m <= |t|
    requires NoSpace(t[..m]) && (m < |t| ==> IsSpace(t[m]))
    ensures WordEnd(t) == m
  {
    var k := WordEnd(t);
    forall j | 0 <= j < m ensures !IsSpace(t[j]) {
      assert t[..m][j] == t[j];
    }
    forall j | 0 <= j < k ensures !IsSpace(t[j]) {
      assert t[..k][j] == t[j];
    }
  }

  /** `lstrip()` drops the same prefix after some of its whitespace is gone. */
  lemma StripStartSkip(s: string, j: nat)
    requires j <= |s| && forall i :: 0 <= i < j ==> IsSpace(s[i])
    ensures StripStart(s) == StripStart(s[j..])
  {
    var k := SkipSpace(s, 0);
    assert j <= k;
    SkipSpaceAt(s[j..], 0, k - j);
    assert StripStart(s) == s[k..] == s[j..][k - j..] == StripStart(s[j..]);
  }

  /** `split()` only looks at what `lstrip()` leaves. */
  lemma WordsOfStripped(s: string, s2: string)
    requires StripStart(s) == StripStart(s2)
    ensures Words(s) == Words(s2)
  {
  }

  /** `split()` ignores leading whitespace. */
  lemma WordsSkip(s: string, j: nat)
    requires j <= |s| && forall i :: 0 <= i < j ==> IsSpace(s[i])
    ensures Words(s) == Words(s[j..])
  {
    StripStartSkip(s, j);
    WordsOfStripped(s, s[j..]);
  }

  /** On a string that starts with a word, `split()` yields that word first. */
  lemma WordsAtWord(t: string)
    requires t != [] && !IsSpace(t[0])
    ensures Words(t) == [t[..WordEnd(t)]] + Words(t[WordEnd(t)..])
  {
    SkipSpaceAt(t, 0, 0);
    assert StripStart(t) == t;
  }

  /** A blank string splits into no words. */
  lemma WordsBlank(s: string)
    requires forall i :: 0 <= i < |s| ==> IsSpace(s[i])
    ensures Words(s) == []
  {
    WordsSkip(s, |s|);
    assert s[|s|..] == [];
  }

  /** A word splits into itself. */
  lemma WordsSingle(w: string)
    requires IsWord(w)
    ensures Words(w) == [w]
  {
    WordEndAt(w, |w|);
    WordsAtWord(w);
    assert w[..|w|] == w && w[|w|..] == [];
    WordsBlank([]);
  }

  /** `split()` distributes over a concatenation at whitespace. With WordsBlank,
      WordsSingle and WordsSkip this determines `Words` on every string: the
      words are the maximal runs of non-whitespace, in order. */
  lemma {:induction false} WordsSeparated(a: string, b: string)
    requires b != [] && IsSpace(b[0])
    ensures Words(a + b) == Words(a) + Words(b)
    decreases |a|, 1
  {
    var j := SkipSpace(a, 0);
    WordsSkipConcat(a, b, j);
    if j == |a| {
      assert a[j..] + b == b;
      WordsBlank(a);
    } else {
      WordsSeparatedAtWord(a[j..], b);
      WordsSkip(a, j);
    }
  }

  /** Leading whitespace of `a` is leading whitespace of `a + b`. */
  lemma WordsSkipConcat(a: string, b: string, j: nat)
    requires j <= |a| && forall i :: 0 <= i < j ==> IsSpace(a[i])
    ensures Words(a + b) == Words(a[j..] + b)
  {
    assert forall i :: 0 <= i < j ==> (a + b)[i] == a[i];
    assert (a + b)[j..] == a[j..] + b;
    WordsSkip(a + b, j);
  }

  lemma {:induction false} WordsSeparatedAtWord(t: string, b: string)
    requires t != [] && !IsSpace(t[0]) && b != [] && IsSpace(b[0])
    ensures Words(t + b) == Words(t) + Words(b)
    decreases |t|, 0
  {
    var k := WordEnd(t);
    WordsAtWordConcat(t, b);
    WordsSeparated(t[k..], b);
    WordsAtWord(t);
    ConsAssoc(t[..k], Words(t[k..]), Words(b));
  }

  lemma ConsAssoc<T>(x: T, u: seq<T>, v: seq<T>)
    ensures [x] + (u + v) == ([x] + u) + v
  {
  }

  /** The first word of `t + b` is the first word of `t` when `b` starts
      with whitespace. */
  lemma WordsAtWordConcat(t: string, b: string)
    requires t != [] && !IsSpace(t[0]) && b != [] && IsSpace(b[0])
    ensures Words(t + b) == [t[..WordEnd(t)]] + Words(t[WordEnd(t)..] + b)
  {
    WordEndAppend(t, b);
    WordsAtWord(t + b);
    ConcatSlices(t, b, WordEnd(t));
  }

  lemma SpacePrefixSlice(s: string, j: nat)
    requires j <= |s| && forall i :: 0 <= i < j ==> IsSpace(s[i])
    ensures forall i :: 0 <= i < |s[..j]| ==> IsSpace(s[..j][i])
    ensures s[..j] + s[j..] == s
  {
    assert forall i :: 0 <= i < j ==> s[..j][i] == s[i];
  }

  lemma ConcatSlices(t: string, b: string, k: nat)
    requires k <= |t|
    ensures (t + b)[..k] == t[..k] && (t + b)[k..] == t[k..] + b
  {
  }

  /** Whitespace after a word ends it. */
  lemma WordEndAppend(t: string, b: string)
    requires t != [] && !IsSpace(t[0]) && b != [] && IsSpace(b[0])
    ensures WordEnd(t + b) == WordEnd(t)
  {
    var u := t + b;
    var k := WordEnd(u);
    forall j | 0 <= j < k ensures !IsSpace(u[j]) {
      assert u[..k][j] == u[j];
    }
    assert u[|t|] == b[0];
    assert t[..k] == u[..k];
    assert k < |t| ==> t[k] == u[k];
    WordEndAt(t, k);
  }

  /** The characters of `s` that are not whitespace, in order. */
  function NonSpace(s: string): (r: string)
    ensures NoSpace(r)
  {
    if s == [] then []
    else if IsSpace(s[0]) then NonSpace(s[1..])
    else [s[0]] + NonSpace(s[1..])
  }

  /** The words laid end to end. */
  function Flatten(ws: seq<string>): string {
    if ws == [] then [] else ws[0] + Flatten(ws[1..])
  }

  lemma {:induction false} NonSpaceAppend(a: string, b: string)
    ensures NonSpace(a + b) == NonSpace(a) + NonSpace(b)
    decreases |a|
  {
    if a == [] {
      assert a + b == b;
    } else {
      assert (a + b)[1..] == a[1..] + b;
      NonSpaceAppend(a[1..], b);
    }
  }

  lemma {:induction false} NonSpaceBlank(s: string)
    requires forall i :: 0 <= i < |s| ==> IsSpace(s[i])
    ensures NonSpace(s) == []
    decreases |s|
  {
    if s != [] {
      NonSpaceBlank(s[1..]);
    }
  }

  lemma {:induction false} NonSpaceWord(s: string)
    requires NoSpace(s)
    ensures NonSpace(s) == s
    decreases |s|
  {
    if s != [] {
      NonSpaceWord(s[1..]);
      assert s == [s[0]] + s[1..];
    }
  }

  /** The words `split()` returns, laid end to end, are the non-whitespace
      characters of `s` in order: nothing is dropped, added or moved. */
  lemma {:induction false} WordsChars(s: string)
    ensures Flatten(Words(s)) == NonSpace(s)
    decreases |s|, 1
  {
    var j := SkipSpace(s, 0);
    var t := s[j..];
    if t == [] {
      WordsBlank(s);
      NonSpaceBlank(s);
    } else {
      WordsSkip(s, j);
      WordsCharsAtWord(t);
      NonSpaceSkip(s, j);
    }
  }

  lemma NonSpaceSkip(s: string, j: nat)
    requires j <= |s| && forall i :: 0 <= i < j ==> IsSpace(s[i])
    ensures NonSpace(s) == NonSpace(s[j..])
  {
    SpacePrefixSlice(s, j);
    NonSpaceBlank(s[..j]);
    NonSpaceAppend(s[..j], s[j..]);
  }

  lemma {:induction false} WordsCharsAtWord(t: string)
    requires t != [] && !IsSpace(t[0])
    ensures Flatten(Words(t)) == NonSpace(t)
    decreases |t|, 0
  {
    var k := WordEnd(t);
    WordsAtWord(t);
    assert ([t[..k]] + Words(t[k..]))[1..] == Words(t[k..]);
    WordsChars(t[k..]);
    NonSpaceWord(t[..k]);
    NonSpaceAppend(t[..k], t[k..]);
    assert t[..k] + t[k..] == t;
  }

  function DigitChar(d: nat): (c: char)
    requires d < 10
    ensures IsDigit(c)
  {
    (d + '0' as int) as char
  }

  function DigitValue(c: char): (d: nat)
    requires IsDigit(c)
    ensures d < 10
  {
    c as int - '0' as int
  }

  /** `str(n)` for a non-negative integer: its decimal digits. */
  function NatStr(n: nat): (r: string)
    ensures r != [] && AllDigits(r)
  {
    if n < 10 then [DigitChar(n)] else NatStr(n / 10) + [DigitChar(n % 10)]
  }

  /** `str(n)` for any integer. */
  function Str(n: int): string {
    if n < 0 then "-" + NatStr(-n) else NatStr(n)
  }

  /** The value of a string of decimal digits (leading zeros allowed). */
  function DigitsValue(s: string): nat
    requires AllDigits(s)
  {
    if s == [] then 0 else DigitsValue(s[..|s| - 1]) * 10 + DigitValue(s[|s| - 1])
  }

  /** Reads a decimal numeral as the Hack assembler does for `@value`. */
  function ParseNat(s: string): Option<nat> {
    if s != [] && AllDigits(s) then Some(DigitsValue(s)) else None
  }

  /** Reading back `str(n)` gives `n`. */
  lemma {:induction false} ParseNatStr(n: nat)
    ensures ParseNat(NatStr(n)) == Some(n)
  {
    var s := NatStr(n);
    if n < 10 {
      assert s[..|s| - 1] == [] && s[|s| - 1] == DigitChar(n);
      assert DigitsValue(s) == DigitValue(DigitChar(n)) == n;
    } else {
      ParseNatStr(n / 10);
      assert s[..|s| - 1] == NatStr(n / 10);
      assert DigitValue(s[|s| - 1]) == n % 10;
    }
  }

  /** Distinct numbers print differently. */
  lemma StrInjective(m: nat, n: nat)
    ensures NatStr(m) == NatStr(n) ==> m == n
  {
    ParseNatStr(m);
    ParseNatStr(n);
  }

  /** `s.replace(pat, rep)`: every non-overlapping occurrence, left to right. */
  function Replace(s: string, pat: string, rep: string): string
    requires pat != []
    decreases |s|
  {
    if |s| < |pat| then s
    else if s[..|pat|] == pat then rep + Replace(s[|pat|..], pat, rep)
    else [s[0]] + Replace(s[1..], pat, rep)
  }

  /** Replacing with text free of `c` creates no `c`. */
  lemma {:induction false} ReplaceKeepsOut(s: string, pat: string, rep: string, c: char)
    requires pat != [] && c !in s && c !in rep
    ensures c !in Replace(s, pat, rep)
    decreases |s|
  {
    if |s| < |pat| {
    } else if s[..|pat|] == pat {
      ReplaceKeepsOut(s[|pat|..], pat, rep, c);
    } else {
      ReplaceKeepsOut(s[1..], pat, rep, c);
    }
  }

  /** A pattern holding a character the string lacks is never found. */
  lemma {:induction false} ReplaceAbsent(s: string, pat: string, rep: string, c: char)
    requires pat != [] && c in pat && c !in s
    ensures Replace(s, pat, rep) == s
    decreases |s|
  {
    if |s| >= |pat| {
      var j :| 0 <= j < |pat| && pat[j] == c;
      assert s[..|pat|][j] != pat[j];
      assert c !in s[1..];
      ReplaceAbsent(s[1..], pat, rep, c);
    }
  }

  /** `s.replace(" ", "")`. */
  function RemoveSpaces(s: string): (r: string)
    ensures ' ' !in r
    ensures ' ' !in s ==> r == s
    ensures forall c :: c in r ==> c in s
  {
    if s == [] then []
    else if s[0] == ' ' then RemoveSpaces(s[1..])
    else [s[0]] + RemoveSpaces(s[1..])
  }

  /** Deleting the spaces one by one is `replace(" ", "")`: the other characters
      survive, in order. */
  lemma {:induction false} RemoveSpacesReplace(s: string)
    ensures RemoveSpaces(s) == Replace(s, " ", "")
    decreases |s|
  {
    if s != [] {
      assert s[..1] == [s[0]];
      RemoveSpacesReplace(s[1..]);
    }
  }
}
