/** Text primitives shared by the puzzle parsers: the subset of Rust's `str`
    API that the solvers use (trim, split, split_once, lines, integer parsing),
    stated over `string` (= seq<char>), and Rust's truncating integer
    division. */
module Text {

  datatype Option<+T> = None | Some(value: T)

  /** ASCII part of Rust's `char::is_whitespace`. */
  predicate IsWhitespace(c: char) {
    c == ' ' || c == '\t' || c == '\n' || c == '\r' || c as int == 11 || c as int == 12
  }

  predicate IsDigit(c: char) {
    '0' <= c <= '9'
  }

  predicate AllDigits(s: string) {
    forall i | 0 <= i < |s| :: IsDigit(s[i])
  }

  // ---------------------------------------------------------------- trimming

  /** `str::trim_start`. */
  function TrimStart(s: string): (r: string)
    ensures |r| <= |s| && r == s[|s| - |r|..]
    ensures r == [] || !IsWhitespace(r[0])
    ensures forall i | 0 <= i < |s| - |r| :: IsWhitespace(s[i])
  {
    if s != [] && IsWhitespace(s[0]) then
      var r := TrimStart(s[1..]);
      assert s[|s| - |r|..] == s[1..][|s| - 1 - |r|..];
      assert forall i | 1 <= i < |s| - |r| :: s[i] == s[1..][i - 1];
      r
    else s
  }

  /** `str::trim_end`. */
  function TrimEnd(s: string): (r: string)
    ensures |r| <= |s| && r == s[..|r|]
    ensures r == [] || !IsWhitespace(r[|r| - 1])
    ensures forall i | |r| <= i < |s| :: IsWhitespace(s[i])
  {
    if s != [] && IsWhitespace(s[|s| - 1]) then
      var r := TrimEnd(s[..|s| - 1]);
      assert s[..|r|] == s[..|s| - 1][..|r|];
      assert forall i | |r| <= i < |s| - 1 :: s[i] == s[..|s| - 1][i];
      r
    else s
  }

  /** `str::trim`: the longest infix with no whitespace at either end. */
  function Trim(s: string): (r: string)
    ensures r == [] || (!IsWhitespace(r[0]) && !IsWhitespace(r[|r| - 1]))
    ensures |r| <= |s|
  {
    TrimEnd(TrimStart(s))
  }

  lemma {:induction false} TrimOfPadded(pre: string, core: string, post: string)
    requires forall i | 0 <= i < |pre| :: IsWhitespace(pre[i])
    requires forall i | 0 <= i < |post| :: IsWhitespace(post[i])
    requires core != [] && !IsWhitespace(core[0]) && !IsWhitespace(core[|core| - 1])
    ensures Trim(pre + core + post) == core
  {
    assert pre + core + post == pre + (core + post);
    TrimStartOfPadded(pre, core + post);
    TrimEndOfPadded(core, post);
  }

  lemma TrimStartOfPadded(pre: string, rest: string)
    requires forall i | 0 <= i < |pre| :: IsWhitespace(pre[i])
    requires rest != [] && !IsWhitespace(rest[0])
    ensures TrimStart(pre + rest) == rest
  {
    var s := pre + rest;
    var r := TrimStart(s);
    assert s[|pre|] == rest[0];
    assert s[|pre|..] == rest;
  }

  lemma TrimEndOfPadded(core: string, post: string)
    requires forall i | 0 <= i < |post| :: IsWhitespace(post[i])
    requires core != [] && !IsWhitespace(core[|core| - 1])
    ensures TrimEnd(core + post) == core
  {
    var s := core + post;
    var r := TrimEnd(s);
    assert s[|core| - 1] == core[|core| - 1];
    assert s[..|core|] == core;
  }

  /** `str::trim_start_matches(c)` for a single character. */
  function TrimStartMatches(s: string, c: char): (r: string)
    ensures |r| <= |s| && r == s[|s| - |r|..]
    ensures r == [] || r[0] != c
    ensures forall i | 0 <= i < |s| - |r| :: s[i] == c
  {
    if s != [] && s[0] == c then TrimStartMatches(s[1..], c) else s
  }

  /** `str::trim_end_matches(c)` for a single character. */
  function TrimEndMatches(s: string, c: char): (r: string)
    ensures |r| <= |s| && r == s[..|r|]
    ensures r == [] || r[|r| - 1] != c
    ensures forall i | |r| <= i < |s| :: s[i] == c
  {
    if s != [] && s[|s| - 1] == c then TrimEndMatches(s[..|s| - 1], c) else s
  }

  // ------------------------------------------------------------ byte offsets

  /** The number of bytes UTF-8 takes to encode `c`, Rust's `char::len_utf8`. */
  function Utf8Width(c: char): (n: nat)
    ensures 1 <= n <= 4
    ensures n == 1 <==> c as int < 0x80
  {
    if c as int < 0x80 then 1
    else if c as int < 0x800 then 2
    else if c as int < 0x1_0000 then 3
    else 4
  }

  /** The number of bytes UTF-8 takes to encode `s`, Rust's `str::len`. */
  function Utf8Length(s: string): (n: nat)
    ensures |s| <= n <= 4 * |s|
  {
    if s == [] then 0 else Utf8Width(s[0]) + Utf8Length(s[1..])
  }

  /** The number of characters of `s` that make up its first `bytes` bytes,
      or None when that byte offset lies past the end or inside a
      character, where Rust's byte slicing and `str::split_at` panic. */
  function CharsInBytes(s: string, bytes: nat): (r: Option<nat>)
    ensures r.Some? ==> r.value <= |s| && Utf8Length(s[..r.value]) == bytes
  {
    if bytes == 0 then Some(0)
    else if s == [] || Utf8Width(s[0]) > bytes then None
    else
      match CharsInBytes(s[1..], bytes - Utf8Width(s[0]))
      case None => None
      case Some(k) =>
        assert s[..k + 1][1..] == s[1..][..k];
        Some(k + 1)
  }

  /** A byte offset is found exactly when some prefix of the characters
      takes that many bytes. */
  lemma {:induction false} CharsInBytesComplete(s: string, bytes: nat, k: nat)
    requires k <= |s| && Utf8Length(s[..k]) == bytes
    ensures CharsInBytes(s, bytes) == Some(k)
  {
    if k > 0 {
      assert s[..k][1..] == s[1..][..k - 1];
      CharsInBytesComplete(s[1..], bytes - Utf8Width(s[0]), k - 1);
    }
  }

  /** The bytes of a first part end on a character boundary of the whole. */
  lemma CharsInBytesOfPrefix(a: string, b: string)
    ensures CharsInBytes(a + b, Utf8Length(a)) == Some(|a|)
  {
    assert (a + b)[..|a|] == a;
    CharsInBytesComplete(a + b, Utf8Length(a), |a|);
  }

  /** In ASCII text a byte is a character. */
  lemma {:induction false} AsciiLength(s: string)
    requires forall i | 0 <= i < |s| :: s[i] as int < 0x80
    ensures Utf8Length(s) == |s|
  {
    if s != [] {
      assert s[0] as int < 0x80;
      AsciiLength(s[1..]);
    }
  }

  // -------------------------------------------------------------- searching

  predicate OccursAt(s: string, pat: string, j: nat) {
    j + |pat| <= |s| && s[j..j + |pat|] == pat
  }

  /** `str::starts_with`. */
  predicate StartsWith(s: string, pat: string) {
    OccursAt(s, pat, 0)
  }

  lemma StartsWithConcat(a: string, b: string)
    ensures StartsWith(a + b, a)
  {
    assert (a + b)[..|a|] == a;
  }

  /** Position of the first occurrence of `pat` in `s`. */
  function IndexOf(s: string, pat: string): (r: Option<nat>)
    ensures r.Some? ==> OccursAt(s, pat, r.value)
    ensures r.Some? ==> forall j | 0 <= j < r.value :: !OccursAt(s, pat, j)
    ensures r.None? ==> forall j: nat :: !OccursAt(s, pat, j)
  {
    IndexFrom(s, pat, 0)
  }

  /** Position of the first occurrence of `pat` in `s` at or after `i`. */
  function IndexFrom(s: string, pat: string, i: nat): (r: Option<nat>)
    ensures r.Some? ==> i <= r.value && OccursAt(s, pat, r.value)
    ensures r.Some? ==> forall j | i <= j < r.value :: !OccursAt(s, pat, j)
    ensures r.None? ==> forall j: nat | i <= j :: !OccursAt(s, pat, j)
    decreases |s| - i
  {
    if i + |pat| > |s| then None
    else if OccursAt(s, pat, i) then Some(i)
    else IndexFrom(s, pat, i + 1)
  }

  /** `str::split_once(pat)`: the text before and after the first `pat`. */
  function SplitOnce(s: string, pat: string): (r: Option<(string, string)>)
    ensures r.Some? ==> r.value.0 + pat + r.value.1 == s
    ensures r.None? ==> IndexOf(s, pat).None?
  {
    match IndexOf(s, pat)
    case None => None
    case Some(i) =>
      assert s[..i] + pat + s[i + |pat|..] == s by {
        assert s == s[..i] + s[i..i + |pat|] + s[i + |pat|..];
      }
      Some((s[..i], s[i + |pat|..]))
  }

  /** Splitting at a separator character that the first part lacks gives
      both parts back. */
  lemma SplitOnceAtChar(a: string, c: char, b: string)
    requires c !in a
    ensures SplitOnce(a + [c] + b, [c]) == Some((a, b))
  {
    var s := a + [c] + b;
    assert OccursAt(s, [c], |a|) by {
      assert s[|a|..|a| + 1] == [c];
    }
    forall j | 0 <= j < |a|
      ensures !OccursAt(s, [c], j)
    {
      assert s[j..j + 1] == [a[j]];
    }
    assert s[..|a|] == a && s[|a| + 1..] == b;
  }

  /** Splitting at a pattern whose first character the first part lacks
      gives both parts back. */
  lemma SplitOnceAtPattern(a: string, pat: string, b: string)
    requires pat != [] && pat[0] !in a
    ensures SplitOnce(a + pat + b, pat) == Some((a, b))
  {
    var s := a + pat + b;
    assert OccursAt(s, pat, |a|) by {
      assert s[|a|..|a| + |pat|] == pat;
    }
    forall j | 0 <= j < |a|
      ensures !OccursAt(s, pat, j)
    {
      if j + |pat| <= |s| {
        assert s[j..j + |pat|][0] == a[j];
      }
    }
    assert s[..|a|] == a && s[|a| + |pat|..] == b;
  }

  /** A pattern whose first character does not occur in `s` is not found. */
  lemma SplitOnceAbsent(s: string, pat: string)
    requires pat != [] && pat[0] !in s
    ensures SplitOnce(s, pat) == None
  {
  }

  /** `str::split(pat)` for a non-empty pattern: every piece between
      occurrences of `pat`, empty ones too. */
  function SplitOn(s: string, pat: string): (r: seq<string>)
    requires pat != []
    ensures |r| >= 1
    decreases |s|
  {
    match SplitOnce(s, pat)
    case None => [s]
    case Some((a, b)) => [a] + SplitOn(b, pat)
  }

  /** Inverse of `SplitOn`: the pieces glued back together with `pat`. */
  function JoinOn(pieces: seq<string>, pat: string): string
  {
    if pieces == [] then []
    else if |pieces| == 1 then pieces[0]
    else pieces[0] + pat + JoinOn(pieces[1..], pat)
  }

  /** The first occurrence of `pat` in `piece + pat` is the appended one. */
  predicate SeparatedBy(piece: string, pat: string) {
    forall j | 0 <= j < |piece| :: !OccursAt(piece + pat, pat, j)
  }

  /** `a + pat + b` splits right after `a` when `pat` does not start
      earlier. */
  lemma SplitOnceFirst(a: string, pat: string, b: string)
    requires pat != [] && SeparatedBy(a, pat)
    ensures SplitOnce(a + pat + b, pat) == Some((a, b))
  {
    var s := a + pat + b;
    assert OccursAt(s, pat, |a|) by {
      assert s[|a|..|a| + |pat|] == pat;
    }
    forall j | 0 <= j < |a|
      ensures !OccursAt(s, pat, j)
    {
      assert !OccursAt(a + pat, pat, j);
      assert s[j..j + |pat|] == (a + pat)[j..j + |pat|];
    }
    assert s[..|a|] == a && s[|a| + |pat|..] == b;
  }

  /** A piece separated by `pat` does not contain it. */
  lemma SeparatedAbsent(a: string, pat: string)
    requires pat != [] && SeparatedBy(a, pat)
    ensures SplitOnce(a, pat) == None
  {
    forall j: nat
      ensures !OccursAt(a, pat, j)
    {
      if j + |pat| <= |a| {
        assert !OccursAt(a + pat, pat, j);
        assert a[j..j + |pat|] == (a + pat)[j..j + |pat|];
      }
    }
  }

  /** Inverse of `JoinOn`: pieces separated by `pat` split back out. */
  lemma {:induction false} SplitOnJoinOn(pieces: seq<string>, pat: string)
    requires pat != [] && pieces != []
    requires forall k | 0 <= k < |pieces| :: SeparatedBy(pieces[k], pat)
    ensures SplitOn(JoinOn(pieces, pat), pat) == pieces
  {
    if |pieces| == 1 {
      SeparatedAbsent(pieces[0], pat);
    } else {
      SplitOnceFirst(pieces[0], pat, JoinOn(pieces[1..], pat));
      SplitOnJoinOn(pieces[1..], pat);
    }
  }

  /** `str::split(c)` for a single character: every piece, empty ones too. */
  function Split(s: string, c: char): (r: seq<string>)
    ensures |r| >= 1
    ensures forall k, i | 0 <= k < |r| && 0 <= i < |r[k]| :: r[k][i] != c
    decreases |s|
  {
    if c !in s then [s]
    else
      var i := FirstIndex(s, c);
      [s[..i]] + Split(s[i + 1..], c)
  }

  /** Index of the first occurrence of character `c`. */
  function FirstIndex(s: string, c: char): (i: nat)
    requires c in s
    ensures i < |s| && s[i] == c && c !in s[..i]
  {
    if s[0] == c then 0 else FirstIndex(s[1..], c) + 1
  }

  /** Inverse of `Split`: the pieces glued back together with `c`. */
  function Join(pieces: seq<string>, c: char): string
  {
    if pieces == [] then []
    else if |pieces| == 1 then pieces[0]
    else pieces[0] + [c] + Join(pieces[1..], c)
  }

  lemma {:induction false} JoinSplit(s: string, c: char)
    ensures Join(Split(s, c), c) == s
    decreases |s|
  {
    if c in s {
      var i := FirstIndex(s, c);
      JoinSplit(s[i + 1..], c);
      JoinCons(s[..i], Split(s[i + 1..], c), c);
      assert s == s[..i] + [c] + s[i + 1..];
    }
  }

  /** Three pieces joined by `sep`. */
  lemma JoinThree(a: string, b: string, c: string, sep: char)
    ensures Join([a, b, c], sep) == a + [sep] + b + [sep] + c
  {
    assert [a, b, c][1..] == [b, c] && [b, c][1..] == [c];
    assert Join([b, c], sep) == b + [sep] + c;
    assert a + [sep] + (b + [sep] + c) == a + [sep] + b + [sep] + c;
  }

  /** Joining a first piece to at least one more puts `c` between them. */
  lemma JoinCons(a: string, rest: seq<string>, c: char)
    requires rest != []
    ensures Join([a] + rest, c) == a + [c] + Join(rest, c)
  {
    assert ([a] + rest)[1..] == rest;
  }

  /** Inverse of `Join`: pieces without the separator split back out. */
  lemma {:induction false} SplitJoin(pieces: seq<string>, c: char)
    requires pieces != []
    requires forall k | 0 <= k < |pieces| :: c !in pieces[k]
    ensures Split(Join(pieces, c), c) == pieces
  {
    if |pieces| > 1 {
      assert pieces == [pieces[0]] + pieces[1..];
      JoinCons(pieces[0], pieces[1..], c);
      SplitAt(pieces[0], c, Join(pieces[1..], c));
      SplitJoin(pieces[1..], c);
    }
  }

  /** Splitting `a + [c] + b` when `a` has no `c` gives `a`, then the pieces
      of `b`. */
  lemma SplitAt(a: string, c: char, b: string)
    requires c !in a
    ensures Split(a + [c] + b, c) == [a] + Split(b, c)
  {
    var s := a + [c] + b;
    assert s[|a|] == c;
    FirstIndexAfter(a, c, b);
    assert s[..|a|] == a && s[|a| + 1..] == b;
  }

  /** The first `c` in `a + [c] + b` when `a` has none is right after `a`. */
  lemma {:induction false} FirstIndexAfter(a: string, c: char, b: string)
    requires c !in a
    ensures FirstIndex(a + [c] + b, c) == |a|
  {
    if a != [] {
      assert (a + [c] + b)[1..] == a[1..] + [c] + b;
      FirstIndexAfter(a[1..], c, b);
    }
  }

  /** Inverse of joining lines with '\n': non-empty lines without a line
      break or a final carriage return come back. */
  lemma {:induction false} LinesOfJoin(lines: seq<string>)
    requires forall k | 0 <= k < |lines| :: lines[k] != [] && '\n' !in lines[k] && lines[k][|lines[k]| - 1] != '\r'
    ensures Lines(Join(lines, '\n')) == lines
  {
    if |lines| == 1 {
      assert Join(lines, '\n') == lines[0];
    } else if |lines| > 1 {
      assert lines == [lines[0]] + lines[1..];
      JoinCons(lines[0], lines[1..], '\n');
      LinesAt(lines[0], Join(lines[1..], '\n'));
      LinesOfJoin(lines[1..]);
    }
  }

  /** The lines of `a + "\n" + b` when `a` has no line break: `a` without a
      final carriage return, then the lines of `b`. */
  lemma LinesAt(a: string, b: string)
    requires '\n' !in a
    ensures Lines(a + ['\n'] + b) == [StripCr(a)] + Lines(b)
  {
    var s := a + ['\n'] + b;
    assert s[|a|] == '\n';
    FirstIndexAfter(a, '\n', b);
    assert s[..|a|] == a && s[|a| + 1..] == b;
  }

  /** `str::lines`: split at '\n', with no final empty line after a
      trailing '\n', and one trailing '\r' removed from each line. */
  function Lines(s: string): (r: seq<string>)
    ensures s == [] ==> r == []
    ensures forall k, i | 0 <= k < |r| && 0 <= i < |r[k]| :: r[k][i] != '\n'
    decreases |s|
  {
    if s == [] then []
    else if '\n' !in s then [StripCr(s)]
    else
      var i := FirstIndex(s, '\n');
      [StripCr(s[..i])] + Lines(s[i + 1..])
  }

  function StripCr(line: string): (r: string)
    ensures r == line || (line == r + ['\r'])
  {
    if line != [] && line[|line| - 1] == '\r' then line[..|line| - 1] else line
  }

  /** `str::split_ascii_whitespace` / `split_whitespace`: the maximal
      non-empty runs of non-whitespace characters. */
  function Words(s: string): (r: seq<string>)
    ensures forall k | 0 <= k < |r| :: IsWord(r[k])
    decreases |s|
  {
    var t := TrimStart(s);
    if t == [] then []
    else
      var n := WordLength(t);
      assert n > 0 by {
        assert !IsWhitespace(t[0]);
      }
      var w := t[..n];
      assert IsWord(w);
      WordsCons(w, Words(t[n..]))
  }

  /** A word in front of a list of words. */
  function WordsCons(w: string, rest: seq<string>): (r: seq<string>)
    requires IsWord(w) && forall k | 0 <= k < |rest| :: IsWord(rest[k])
    ensures forall k | 0 <= k < |r| :: IsWord(r[k])
  {
    [w] + rest
  }

  /** A non-empty run of non-whitespace characters. */
  predicate IsWord(w: string) {
    w != [] && forall i | 0 <= i < |w| :: !IsWhitespace(w[i])
  }

  /** A word followed by a space is the first word. */
  lemma {:induction false} WordsOfWordThenSpace(w: string, rest: string)
    requires IsWord(w)
    ensures Words(w + [' '] + rest) == [w] + Words(rest)
  {
    var tail := [' '] + rest;
    var s := w + tail;
    assert w + [' '] + rest == s;
    assert TrimStart(s) == s;
    WordLengthOfWord(w, tail);
    assert s[..|w|] == w && s[|w|..] == tail;
    assert TrimStart(tail) == TrimStart(rest) by {
      assert tail[1..] == rest;
    }
  }

  /** Words without whitespace joined by single spaces split back into the
      same words. */
  lemma {:induction false} WordsOfJoin(ws: seq<string>)
    requires forall k | 0 <= k < |ws| :: IsWord(ws[k])
    ensures Words(Join(ws, ' ')) == ws
  {
    if |ws| == 1 {
      WordsOfWord(ws[0]);
    } else if |ws| > 1 {
      assert ws == [ws[0]] + ws[1..];
      JoinCons(ws[0], ws[1..], ' ');
      WordsOfWordThenSpace(ws[0], Join(ws[1..], ' '));
      WordsOfJoin(ws[1..]);
    }
  }

  /** A text that is a single word is that word. */
  lemma WordsOfWord(w: string)
    requires IsWord(w)
    ensures Words(w) == [w]
  {
    WordLengthOfWord(w, []);
    assert w + [] == w;
    assert TrimStart(w) == w;
    assert w[|w|..] == [];
  }

  lemma {:induction false} WordLengthOfWord(w: string, rest: string)
    requires forall i | 0 <= i < |w| :: !IsWhitespace(w[i])
    requires rest == [] || IsWhitespace(rest[0])
    ensures WordLength(w + rest) == |w|
  {
    if w != [] {
      assert (w + rest)[1..] == w[1..] + rest;
      WordLengthOfWord(w[1..], rest);
    } else {
      assert w + rest == rest;
    }
  }

  /** Length of the non-whitespace run at the start of `s`. */
  function WordLength(s: string): (n: nat)
    ensures n <= |s|
    ensures forall i | 0 <= i < n :: !IsWhitespace(s[i])
    ensures n < |s| ==> IsWhitespace(s[n])
  {
    if s == [] || IsWhitespace(s[0]) then 0 else 1 + WordLength(s[1..])
  }

  // --------------------------------------------------------------- sequences

  function Reverse<T>(s: seq<T>): (r: seq<T>)
    ensures |r| == |s|
    ensures forall i | 0 <= i < |s| :: r[i] == s[|s| - 1 - i]
  {
    if s == [] then [] else Reverse(s[1..]) + [s[0]]
  }

  lemma ReverseReverse<T>(s: seq<T>)
    ensures Reverse(Reverse(s)) == s
  {
  }

  /** `collect::<Option<Vec<T>>>()`: every value when all entries are
      Some, else None. */
  function AllSome<T>(opts: seq<Option<T>>): (r: Option<seq<T>>)
    ensures r.Some? <==> forall i | 0 <= i < |opts| :: opts[i].Some?
    ensures r.None? ==> exists i | 0 <= i < |opts| :: opts[i].None?
    ensures r.Some? ==> |r.value| == |opts| && forall i | 0 <= i < |opts| :: r.value[i] == opts[i].value
  {
    if opts == [] then Some([])
    else
      match AllSome(opts[1..])
      case None => None
      case Some(rest) => if opts[0].None? then None else Some([opts[0].value] + rest)
  }

  // ----------------------------------------------------------------- numbers

  /** Decimal value of a string of digits, most significant first. */
  function DigitsValue(s: string): nat
    requires AllDigits(s)
  {
    if s == [] then 0 else DigitsValue(s[..|s| - 1]) * 10 + (s[|s| - 1] as int - '0' as int)
  }

  /** Rust's `str::parse` for an unsigned integer type whose largest value is
      `max`: an optional '+', then one or more decimal digits, without
      overflow. */
  function ParseNat(s: string, max: nat): (r: Option<nat>)
    ensures r.Some? ==> r.value <= max
  {
    var d := if s != [] && s[0] == '+' then s[1..] else s;
    if d != [] && AllDigits(d) && DigitsValue(d) <= max then Some(DigitsValue(d)) else None
  }

  /** Rust's `str::parse` for a signed integer type with range `min..=max`:
      an optional '+' or '-', then one or more decimal digits. */
  function ParseInt(s: string, min: int, max: int): (r: Option<int>)
    ensures r.Some? ==> min <= r.value <= max
  {
    var negative := s != [] && s[0] == '-';
    var d := if s != [] && (s[0] == '+' || s[0] == '-') then s[1..] else s;
    if d == [] || !AllDigits(d) then None
    else
      var n: int := DigitsValue(d);
      var v := if negative then -n else n;
      if min <= v <= max then Some(v) else None
  }

  /** The decimal rendering of `n`, no sign, no leading zeros. */
  function NatToString(n: nat): (s: string)
    ensures s != [] && AllDigits(s)
  {
    if n < 10 then [('0' as int + n) as char]
    else NatToString(n / 10) + [('0' as int + n % 10) as char]
  }

  lemma {:induction false} NatToStringValue(n: nat)
    ensures DigitsValue(NatToString(n)) == n
  {
    var s := NatToString(n);
    if n >= 10 {
      NatToStringValue(n / 10);
      assert s[..|s| - 1] == NatToString(n / 10);
    }
  }

  /** Parsing the rendering of a representable number gives the number back. */
  lemma ParseNatToString(n: nat, max: nat)
    requires n <= max
    ensures ParseNat(NatToString(n), max) == Some(n)
  {
    NatToStringValue(n);
  }

  /** The rendering of an integer, with a leading '-' when it is negative. */
  function IntToString(v: int): (s: string)
    ensures s != []
  {
    if v < 0 then "-" + NatToString(-v) else NatToString(v)
  }

  /** A rendered integer holds only digits and a minus sign. */
  lemma IntToStringChars(v: int)
    ensures forall i | 0 <= i < |IntToString(v)| :: IntToString(v)[i] == '-' || IsDigit(IntToString(v)[i])
  {
    var s := IntToString(v);
    var digits := NatToString(if v < 0 then -v else v);
    forall i | 0 <= i < |s| ensures s[i] == '-' || IsDigit(s[i]) {
      if v < 0 && i > 0 {
        assert s[i] == digits[i - 1];
      }
    }
  }

  lemma ParseIntToString(v: int, min: int, max: int)
    requires min <= v <= max
    ensures ParseInt(IntToString(v), min, max) == Some(v)
  {
    NatToStringValue(if v < 0 then -v else v);
    if v < 0 {
      assert IntToString(v)[1..] == NatToString(-v);
    }
  }

  /** Every string parsed as an integer in `min..=max`, as collecting
      `parse` results into a vector does; `None` when one does not parse. */
  function ParseInts(parts: seq<string>, min: int, max: int): (r: Option<seq<int>>)
    ensures r.Some? <==> forall i | 0 <= i < |parts| :: ParseInt(parts[i], min, max).Some?
    ensures r.None? ==> exists i | 0 <= i < |parts| :: ParseInt(parts[i], min, max).None?
    ensures r.Some? ==> |r.value| == |parts|
    ensures r.Some? ==> forall i | 0 <= i < |parts| :: ParseInt(parts[i], min, max) == Some(r.value[i])
  {
    if parts == [] then Some([])
    else
      match (ParseInt(parts[0], min, max), ParseInts(parts[1..], min, max))
      case (Some(v), Some(rest)) => Some([v] + rest)
      case _ => None
  }

  // -------------------------------------------------------------- arithmetic

  /** A subset is no larger than its superset. */
  lemma SubsetCard<T>(s: set<T>, t: set<T>)
    requires s <= t
    ensures |s| <= |t|
  {
    assert t == s + (t - s);
  }

  function Abs(x: int): (r: nat)
    ensures r == x || r == -x
  {
    if x < 0 then -x else x
  }

  /** Euclidean division has exactly one quotient and remainder. */
  lemma DivModUnique(a: int, b: int, q: int, r: int)
    requires b > 0 && 0 <= r < b && a == q * b + r
    ensures a / b == q && a % b == r
  {
    var q' := a / b;
    var r' := a % b;
    assert (q - q') * b == r' - r by {
      assert q' * b + r' == q * b + r;
      assert (q - q') * b == q * b - q' * b;
    }
    SmallMultiple(q - q', b);
  }

  /** The only multiple of `b` strictly between `-b` and `b` is 0. */
  lemma SmallMultiple(k: int, b: int)
    requires b > 0 && -b < k * b < b
    ensures k == 0
  {
    if k >= 1 {
      assert k * b == (k - 1) * b + b;
      MulNonNegative(k - 1, b);
    } else if k <= -1 {
      assert k * b == -((-k - 1) * b) - b;
      MulNonNegative(-k - 1, b);
    }
  }

  lemma MulNonNegative(x: int, y: int)
    requires x >= 0 && y >= 0
    ensures x * y >= 0
  {
  }

  /** Division of naturals; the quotient is a natural. */
  function NatDiv(n: nat, d: nat): (q: nat)
    requires d > 0
    ensures q == n / d
  {
    n / d
  }

  /** Rust's `/` on signed integers: the quotient truncated toward zero. */
  function TruncDiv(a: int, b: int): (q: int)
    requires b != 0
    ensures Abs(q) == Abs(a) / Abs(b)
    ensures q == 0 || (q < 0 <==> (a < 0) != (b < 0))
  {
    var n: nat := Abs(a);
    var d: nat := Abs(b);
    var q: int := NatDiv(n, d);
    if (a < 0) == (b < 0) then q else -q
  }

  /** Rust's `%` on signed integers, for a positive divisor: the remainder
      takes the sign of `a`. */
  function TruncRem(a: int, b: int): (r: int)
    requires b > 0
    ensures a == TruncDiv(a, b) * b + r
    ensures -b < r < b
    ensures r == 0 || (r < 0 <==> a < 0)
  {
    if a >= 0 then a % b
    else
      var n: int := -a;
      assert TruncDiv(a, b) == -(n / b);
      assert n == (n / b) * b + n % b;
      -(n % b)
  }
}
