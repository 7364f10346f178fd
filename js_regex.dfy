/** The parts of JavaScript's string and regular-expression machinery that the
    BIRD status parsers rely on, each written out as an explicit scan:
    character classes, greedy runs, `matchAll` over one class, the first
    capture of `key(class+)`, the lazy slice `start(.|\n)+?(?=stop)`,
    `includes`, and `split`/`join` on one character. Every scan carries a
    declarative description of the match it finds, so the parsers can be
    stated without reference to how the regex engine searches. */
module JsRegex {
  import opened Wrappers

  /** JavaScript's `\s`: the ECMAScript WhiteSpace and LineTerminator code points. */
  predicate IsSpace(c: char) {
    var n := c as int;
    (0x09 <= n <= 0x0D) || n == 0x20 || n == 0xA0 || n == 0x1680 || (0x2000 <= n <= 0x200A)
    || n == 0x2028 || n == 0x2029 || n == 0x202F || n == 0x205F || n == 0x3000 || n == 0xFEFF
  }

  /** The characters after which `^` matches in multiline mode, and which `.` refuses. */
  predicate IsLineTerminator(c: char) {
    c == '\n' || c == '\r' || c as int == 0x2028 || c as int == 0x2029
  }

  predicate IsDigit(c: char) {
    '0' <= c <= '9'
  }

  /** The character classes that occur in the parsers' regexes. */
  datatype CharClass =
    | NonSpace         // [^\s]
    | NonNewline       // [^\n]
    | Digits           // [0-9]
    | Whitespace       // \s
    | LowerAlnumSpace  // [a-z0-9 ]
    | TimerChars       // [0-9./]
    | StatChars        // [0-9(?:\-\-\-)], which is the set 0-9 ( ? : - )

  predicate Matches(cls: CharClass, c: char) {
    match cls
    case NonSpace => !IsSpace(c)
    case NonNewline => c != '\n'
    case Digits => IsDigit(c)
    case Whitespace => IsSpace(c)
    case LowerAlnumSpace => ('a' <= c <= 'z') || IsDigit(c) || c == ' '
    case TimerChars => IsDigit(c) || c == '.' || c == '/'
    case StatChars => IsDigit(c) || c == '(' || c == '?' || c == ':' || c == '-' || c == ')'
  }

  predicate AllMatch(s: string, cls: CharClass) {
    forall k :: 0 <= k < |s| ==> Matches(cls, s[k])
  }

  /** A decimal numeral: one or more digits. */
  predicate IsNumeral(s: string) {
    s != [] && AllMatch(s, Digits)
  }

  predicate NoneMatch(s: string, cls: CharClass) {
    forall k :: 0 <= k < |s| ==> !Matches(cls, s[k])
  }

  // ---------------------------------------------------------------------------
  // Greedy runs: `cls*` anchored at the start of `s`

  /** Length of the longest prefix of `s` made of `cls` characters. */
  function RunLen(s: string, cls: CharClass): (n: nat)
    ensures n <= |s|
    ensures forall k :: 0 <= k < n ==> Matches(cls, s[k])
    ensures n == |s| || !Matches(cls, s[n])
  {
    if s == [] || !Matches(cls, s[0]) then 0 else 1 + RunLen(s[1..], cls)
  }

  /** A prefix of `cls` characters that cannot be extended is the greedy run. */
  lemma RunLenUnique(s: string, cls: CharClass, m: nat)
    requires m <= |s| && forall k :: 0 <= k < m ==> Matches(cls, s[k])
    requires m == |s| || !Matches(cls, s[m])
    ensures RunLen(s, cls) == m
  {
  }

  // ---------------------------------------------------------------------------
  // `matchAll(/(cls+)/g)`: the maximal runs of a class, left to right

  function Tokens(s: string, cls: CharClass): (r: seq<string>)
    ensures forall t :: t in r ==> t != [] && AllMatch(t, cls)
    decreases |s|
  {
    if s == [] then []
    else if !Matches(cls, s[0]) then Tokens(s[1..], cls)
    else
      var n := RunLen(s, cls);
      [s[..n]] + Tokens(s[n..], cls)
  }

  /** The characters of `s` in class `cls`, in order. */
  function Keep(s: string, cls: CharClass): string {
    if s == [] then []
    else (if Matches(cls, s[0]) then [s[0]] else []) + Keep(s[1..], cls)
  }

  function Flatten(ts: seq<string>): string {
    if ts == [] then [] else ts[0] + Flatten(ts[1..])
  }

  lemma {:induction false} KeepAppend(x: string, y: string, cls: CharClass)
    ensures Keep(x + y, cls) == Keep(x, cls) + Keep(y, cls)
    decreases |x|
  {
    if x != [] {
      var h := if Matches(cls, x[0]) then [x[0]] else [];
      assert (x + y)[0] == x[0];
      assert (x + y)[1..] == x[1..] + y;
      assert Keep(x + y, cls) == h + Keep(x[1..] + y, cls);
      assert Keep(x, cls) == h + Keep(x[1..], cls);
      KeepAppend(x[1..], y, cls);
    } else {
      assert x + y == y;
    }
  }

  lemma {:induction false} KeepAll(x: string, cls: CharClass)
    requires AllMatch(x, cls)
    ensures Keep(x, cls) == x
    decreases |x|
  {
    if x != [] {
      KeepAll(x[1..], cls);
    }
  }

  lemma {:induction false} KeepNone(x: string, cls: CharClass)
    requires NoneMatch(x, cls)
    ensures Keep(x, cls) == []
    decreases |x|
  {
    if x != [] {
      KeepNone(x[1..], cls);
    }
  }

  /** The tokens, read one after the other, are exactly the class's characters of the text. */
  lemma {:induction false} TokensCoverClass(s: string, cls: CharClass)
    ensures Flatten(Tokens(s, cls)) == Keep(s, cls)
    decreases |s|
  {
    if s == [] {
    } else if !Matches(cls, s[0]) {
      TokensCoverClass(s[1..], cls);
    } else {
      var n := RunLen(s, cls);
      assert s == s[..n] + s[n..];
      TokensCoverClass(s[n..], cls);
      KeepAppend(s[..n], s[n..], cls);
      KeepAll(s[..n], cls);
    }
  }

  lemma {:induction false} FlattenLength(ts: seq<string>)
    requires forall t :: t in ts ==> t != []
    ensures |Flatten(ts)| >= |ts|
  {
    if ts != [] {
      assert ts[0] in ts;
      assert forall t :: t in ts[1..] ==> t in ts;
      FlattenLength(ts[1..]);
    }
  }

  /** A text with none of the class's characters has no tokens. */
  lemma TokensEmpty(s: string, cls: CharClass)
    requires Keep(s, cls) == []
    ensures Tokens(s, cls) == []
  {
    TokensCoverClass(s, cls);
    FlattenLength(Tokens(s, cls));
  }

  /** Characters outside the class before the text contribute no token. */
  lemma {:induction false} TokensSkip(x: string, b: string, cls: CharClass)
    requires NoneMatch(x, cls)
    ensures Tokens(x + b, cls) == Tokens(b, cls)
    decreases |x|
  {
    if x != [] {
      assert (x + b)[0] == x[0] && !Matches(cls, x[0]);
      assert (x + b)[1..] == x[1..] + b;
      assert Tokens(x + b, cls) == Tokens(x[1..] + b, cls);
      TokensSkip(x[1..], b, cls);
    } else {
      assert x + b == b;
    }
  }

  /** A non-empty separator outside the class splits the token list in two. */
  lemma {:induction false} TokensSplit(a: string, sep: string, b: string, cls: CharClass)
    requires sep != [] && NoneMatch(sep, cls)
    ensures Tokens(a + sep + b, cls) == Tokens(a, cls) + Tokens(b, cls)
    decreases |a|
  {
    if a == [] {
      TokensSplitEmpty(sep, b, cls);
    } else {
      var k := TokensSplitStep(a, sep, b, cls);
      TokensSplit(a[k..], sep, b, cls);
    }
  }

  lemma TokensSplitEmpty(sep: string, b: string, cls: CharClass)
    requires NoneMatch(sep, cls)
    ensures Tokens([] + sep + b, cls) == Tokens([], cls) + Tokens(b, cls)
  {
    assert [] + sep + b == sep + b;
    TokensSkip(sep, b, cls);
  }

  /** One step of the scan over `a` is the same step over `a + sep + b`: the
      split holds for `a` once it holds for the rest of `a` after the step. */
  lemma TokensSplitStep(a: string, sep: string, b: string, cls: CharClass) returns (k: nat)
    requires sep != [] && NoneMatch(sep, cls) && a != []
    ensures 0 < k <= |a|
    ensures Tokens(a[k..] + sep + b, cls) == Tokens(a[k..], cls) + Tokens(b, cls)
      ==> Tokens(a + sep + b, cls) == Tokens(a, cls) + Tokens(b, cls)
  {
    if !Matches(cls, a[0]) {
      k := 1;
      TokensSplitSkip(a, sep, b, cls);
    } else {
      k := RunLen(a, cls);
      TokensSplitRun(a, sep, b, cls);
      ConsAssoc(a[..k], Tokens(a[k..], cls), Tokens(b, cls));
    }
  }

  lemma TokensSplitSkip(a: string, sep: string, b: string, cls: CharClass)
    requires a != [] && !Matches(cls, a[0])
    ensures Tokens(a + sep + b, cls) == Tokens(a[1..] + sep + b, cls)
    ensures Tokens(a, cls) == Tokens(a[1..], cls)
  {
    var s := a + sep + b;
    assert s[0] == a[0] && s[1..] == a[1..] + sep + b;
  }

  lemma ConsAssoc(w: string, x: seq<string>, y: seq<string>)
    ensures [w] + (x + y) == ([w] + x) + y
  {
  }

  /** The run at the head of `a` is also the run at the head of `a + sep + b`. */
  lemma TokensSplitRun(a: string, sep: string, b: string, cls: CharClass)
    requires sep != [] && NoneMatch(sep, cls)
    requires a != [] && Matches(cls, a[0])
    ensures var m := RunLen(a, cls);
      Tokens(a + sep + b, cls) == [a[..m]] + Tokens(a[m..] + sep + b, cls)
    ensures var m := RunLen(a, cls); Tokens(a, cls) == [a[..m]] + Tokens(a[m..], cls)
  {
    var s := a + sep + b;
    var m := RunLen(a, cls);
    assert m == |a| ==> s[m] == sep[0];
    assert m < |a| ==> s[m] == a[m];
    assert forall k :: 0 <= k < m ==> s[k] == a[k];
    RunLenUnique(s, cls, m);
    assert s[..m] == a[..m];
    assert s[m..] == a[m..] + sep + b;
  }

  /** A single maximal run is one token. */
  lemma TokensOfRun(w: string, cls: CharClass)
    requires w != [] && AllMatch(w, cls)
    ensures Tokens(w, cls) == [w]
  {
    RunLenUnique(w, cls, |w|);
    assert w[..|w|] == w;
    assert w[|w|..] == [];
  }

  /** A maximal run at the head of the text is the first token. */
  lemma TokensHead(w: string, rest: string, cls: CharClass)
    requires w != [] && AllMatch(w, cls)
    requires rest == [] || !Matches(cls, rest[0])
    ensures Tokens(w + rest, cls) == [w] + Tokens(rest, cls)
  {
    var s := w + rest;
    assert rest != [] ==> s[|w|] == rest[0];
    RunLenUnique(s, cls, |w|);
    assert s[..|w|] == w && s[|w|..] == rest;
  }

  /** Tokens separated by a separator outside the class are read back one by one. */
  lemma {:induction false} TokensOfJoin(parts: seq<string>, sep: string, cls: CharClass)
    requires sep != [] && NoneMatch(sep, cls)
    requires forall p :: p in parts ==> p != [] && AllMatch(p, cls)
    ensures Tokens(Join(parts, sep), cls) == parts
  {
    if |parts| == 1 {
      assert parts[0] in parts;
      TokensOfRun(parts[0], cls);
    } else if |parts| > 1 {
      assert parts[0] in parts;
      assert forall p :: p in parts[1..] ==> p in parts;
      TokensOfJoin(parts[1..], sep, cls);
      TokensSplit(parts[0], sep, Join(parts[1..], sep), cls);
      TokensOfRun(parts[0], cls);
      assert [parts[0]] + parts[1..] == parts;
    }
  }

  // ---------------------------------------------------------------------------
  // `split(sep)` and `join(sep)`

  /** `s.split(sep)` for a one-character separator: the pieces between separators,
      empty pieces included, and `[""]` for the empty string. */
  function Split(s: string, sep: char): (r: seq<string>)
    ensures |r| >= 1
    ensures forall p :: p in r ==> sep !in p
  {
    if s == [] then [[]]
    else
      var rest := Split(s[1..], sep);
      if s[0] == sep then [[]] + rest
      else [[s[0]] + rest[0]] + rest[1..]
  }

  /** `parts.join(sep)`. */
  function Join(parts: seq<string>, sep: string): string {
    if parts == [] then []
    else if |parts| == 1 then parts[0]
    else parts[0] + sep + Join(parts[1..], sep)
  }

  /** Joining the pieces of a split gives back the text. */
  lemma {:induction false} JoinSplit(s: string, sep: char)
    ensures Join(Split(s, sep), [sep]) == s
  {
    if s != [] {
      var rest := Split(s[1..], sep);
      JoinSplit(s[1..], sep);
      if s[0] == sep {
        assert ([[]] + rest)[1..] == rest;
      } else if |rest| == 1 {
        assert [[s[0]] + rest[0]] + rest[1..] == [[s[0]] + rest[0]];
      } else {
        var parts := [[s[0]] + rest[0]] + rest[1..];
        assert parts[1..] == rest[1..];
        assert Join(rest, [sep]) == rest[0] + [sep] + Join(rest[1..], [sep]);
        assert [s[0]] + rest[0] + [sep] + Join(rest[1..], [sep]) == [s[0]] + Join(rest, [sep]);
      }
    }
  }

  /** A text without the separator splits into itself. */
  lemma {:induction false} SplitNoSeparator(p: string, sep: char)
    requires sep !in p
    ensures Split(p, sep) == [p]
  {
    if p != [] {
      SplitNoSeparator(p[1..], sep);
      assert [p[0]] + p[1..] == p;
    }
  }

  /** The first separator cuts off the first piece. */
  lemma {:induction false} SplitAtSeparator(p: string, t: string, sep: char)
    requires sep !in p
    ensures Split(p + [sep] + t, sep) == [p] + Split(t, sep)
  {
    var s := p + [sep] + t;
    if p == [] {
      assert s[1..] == t;
    } else {
      assert s[1..] == p[1..] + [sep] + t;
      SplitAtSeparator(p[1..], t, sep);
      assert [p[0]] + p[1..] == p;
    }
  }

  /** Splitting a join of separator-free pieces gives back the pieces. */
  lemma {:induction false} SplitJoin(parts: seq<string>, sep: char)
    requires |parts| >= 1 && forall p :: p in parts ==> sep !in p
    ensures Split(Join(parts, [sep]), sep) == parts
  {
    if |parts| == 1 {
      SplitNoSeparator(parts[0], sep);
    } else {
      assert parts[0] in parts;
      SplitJoin(parts[1..], sep);
      SplitAtSeparator(parts[0], Join(parts[1..], [sep]), sep);
      assert [parts[0]] + parts[1..] == parts;
    }
  }

  /** The first piece of a split is the text up to the first separator. */
  lemma {:induction false} SplitHead(s: string, sep: char)
    ensures var h := Split(s, sep)[0];
            h <= s && sep !in h && (|h| == |s| || s[|h|] == sep)
  {
    if s != [] {
      SplitHead(s[1..], sep);
    }
  }

  /** `text.split("\n")[0]`. */
  function FirstLine(text: string): (r: string)
    ensures r <= text && '\n' !in r
    ensures |r| == |text| || text[|r|] == '\n'
  {
    SplitHead(text, '\n');
    Split(text, '\n')[0]
  }

  // ---------------------------------------------------------------------------
  // `includes(needle)`: first occurrence of a literal

  predicate OccursAt(text: string, needle: string, i: int) {
    0 <= i <= |text| && needle <= text[i..]
  }

  ghost predicate Occurs(text: string, needle: string) {
    exists i :: OccursAt(text, needle, i)
  }

  function IndexOfFrom(text: string, needle: string, from: nat): (r: Option<nat>)
    requires from <= |text|
    ensures r.Some? ==> from <= r.value && OccursAt(text, needle, r.value)
    ensures r.Some? ==> forall j :: from <= j < r.value ==> !OccursAt(text, needle, j)
    ensures r.None? ==> forall j :: from <= j ==> !OccursAt(text, needle, j)
    decreases |text| - from
  {
    if OccursAt(text, needle, from) then Some(from)
    else if from == |text| then None
    else IndexOfFrom(text, needle, from + 1)
  }

  /** `text.includes(needle)`. */
  function Includes(text: string, needle: string): (b: bool)
    ensures b <==> Occurs(text, needle)
  {
    IndexOfFrom(text, needle, 0).Some?
  }

  // ---------------------------------------------------------------------------
  // `text.match(/key(cls+)/)?.at(1)`: the first capture

  /** The regex `key(cls+)` can match at position `i`. */
  predicate CaptureStart(text: string, key: string, cls: CharClass, i: int) {
    OccursAt(text, key, i) && i + |key| < |text| && Matches(cls, text[i + |key|])
  }

  ghost predicate HasCapture(text: string, key: string, cls: CharClass) {
    exists i :: CaptureStart(text, key, cls, i)
  }

  /** `v` is a maximal run of `cls` characters that starts at `k`. */
  ghost predicate IsMaximalRunAt(text: string, k: int, cls: CharClass, v: string) {
    0 <= k && k + |v| <= |text| && v == text[k..k + |v|] && v != [] && AllMatch(v, cls)
    && (k + |v| == |text| || !Matches(cls, text[k + |v|]))
  }

  ghost predicate IsFirstCaptureStart(text: string, key: string, cls: CharClass, i: int) {
    CaptureStart(text, key, cls, i) && forall j :: 0 <= j < i ==> !CaptureStart(text, key, cls, j)
  }

  /** What the regex engine returns for `key(cls+)`: nothing if the key is never
      followed by a `cls` character; otherwise the maximal `cls` run after the
      first occurrence of the key that is followed by one. */
  ghost predicate IsFirstCapture(text: string, key: string, cls: CharClass, r: Option<string>) {
    match r
    case None => !HasCapture(text, key, cls)
    case Some(v) => exists i :: IsFirstCaptureStart(text, key, cls, i) && IsMaximalRunAt(text, i + |key|, cls, v)
  }

  function FirstCaptureFrom(text: string, key: string, cls: CharClass, from: nat): (r: Option<nat>)
    requires from <= |text|
    ensures r.Some? ==> from <= r.value && CaptureStart(text, key, cls, r.value)
    ensures r.Some? ==> forall j :: from <= j < r.value ==> !CaptureStart(text, key, cls, j)
    ensures r.None? ==> forall j :: from <= j ==> !CaptureStart(text, key, cls, j)
    decreases |text| - from
  {
    if CaptureStart(text, key, cls, from) then Some(from)
    else if from == |text| then None
    else FirstCaptureFrom(text, key, cls, from + 1)
  }

  function CaptureAfter(text: string, key: string, cls: CharClass): (r: Option<string>)
    ensures IsFirstCapture(text, key, cls, r)
    ensures r.Some? ==> r.value != [] && AllMatch(r.value, cls)
  {
    match FirstCaptureFrom(text, key, cls, 0)
    case None => None
    case Some(i) =>
      var k := i + |key|;
      var n := RunLen(text[k..], cls);
      var v := text[k..k + n];
      assert IsFirstCaptureStart(text, key, cls, i);
      assert IsMaximalRunAt(text, k, cls, v);
      Some(v)
  }

  lemma FirstCaptureStartUnique(text: string, key: string, cls: CharClass, i1: int, i2: int)
    requires IsFirstCaptureStart(text, key, cls, i1) && IsFirstCaptureStart(text, key, cls, i2)
    ensures i1 == i2
  {
  }

  lemma MaximalRunUnique(text: string, k: int, cls: CharClass, v1: string, v2: string)
    requires IsMaximalRunAt(text, k, cls, v1) && IsMaximalRunAt(text, k, cls, v2)
    ensures v1 == v2
  {
    var rest := text[k..];
    assert forall t :: 0 <= t < |v1| ==> rest[t] == v1[t];
    assert forall t :: 0 <= t < |v2| ==> rest[t] == v2[t];
    RunLenUnique(rest, cls, |v1|);
    RunLenUnique(rest, cls, |v2|);
  }

  lemma CaptureWitness(text: string, key: string, cls: CharClass, v: string) returns (i: int)
    requires IsFirstCapture(text, key, cls, Some(v))
    ensures IsFirstCaptureStart(text, key, cls, i) && IsMaximalRunAt(text, i + |key|, cls, v)
  {
    i :| IsFirstCaptureStart(text, key, cls, i) && IsMaximalRunAt(text, i + |key|, cls, v);
  }

  lemma FirstCapturesAgree(text: string, key: string, cls: CharClass, v1: string, v2: string)
    requires IsFirstCapture(text, key, cls, Some(v1)) && IsFirstCapture(text, key, cls, Some(v2))
    ensures v1 == v2
  {
    var i1 := CaptureWitness(text, key, cls, v1);
    var i2 := CaptureWitness(text, key, cls, v2);
    FirstCaptureStartUnique(text, key, cls, i1, i2);
    MaximalRunUnique(text, i1 + |key|, cls, v1, v2);
  }

  lemma CaptureFoundIsPresent(text: string, key: string, cls: CharClass, v: string)
    requires IsFirstCapture(text, key, cls, Some(v))
    ensures HasCapture(text, key, cls)
  {
    var i :| IsFirstCaptureStart(text, key, cls, i) && IsMaximalRunAt(text, i + |key|, cls, v);
  }

  /** The description in IsFirstCapture leaves no choice: it fixes the capture. */
  lemma FirstCaptureDetermined(text: string, key: string, cls: CharClass, r1: Option<string>, r2: Option<string>)
    requires IsFirstCapture(text, key, cls, r1) && IsFirstCapture(text, key, cls, r2)
    ensures r1 == r2
  {
    match (r1, r2)
    case (Some(v1), Some(v2)) => FirstCapturesAgree(text, key, cls, v1, v2);
    case (Some(v1), None) => CaptureFoundIsPresent(text, key, cls, v1);
    case (None, Some(v2)) => CaptureFoundIsPresent(text, key, cls, v2);
    case (None, None) =>
  }

  /** Every result the description admits is the one CaptureAfter computes. */
  lemma CaptureAfterIsTheCapture(text: string, key: string, cls: CharClass)
    ensures forall r :: IsFirstCapture(text, key, cls, r) ==> r == CaptureAfter(text, key, cls)
  {
    forall r | IsFirstCapture(text, key, cls, r)
      ensures r == CaptureAfter(text, key, cls)
    {
      FirstCaptureDetermined(text, key, cls, r, CaptureAfter(text, key, cls));
    }
  }

  // ---------------------------------------------------------------------------
  // `text.match(/start(.|\n)+?(?=stop)/)![0]`: the lazy slice

  /** `(.|\n)`: without the `s` flag, `.` matches anything but a line terminator. */
  predicate DotOrNewline(c: char) {
    c == '\n' || !IsLineTerminator(c)
  }

  /** With the body starting at `body`, the lazy group stops at `j`: at least one
      character consumed, all of them `(.|\n)`, and `j` is the first position
      after `body` where `stop` follows. */
  ghost predicate IsLazyEnd(text: string, stop: string, body: int, j: int) {
    0 <= body < j && OccursAt(text, stop, j)
    && (forall m :: body <= m < j ==> DotOrNewline(text[m]))
    && (forall m :: body < m < j ==> !OccursAt(text, stop, m))
  }

  /** The slice regex matches from `i` to `j`. */
  ghost predicate SliceAt(text: string, start: string, stop: string, i: int, j: int) {
    OccursAt(text, start, i) && IsLazyEnd(text, stop, i + |start|, j)
  }

  ghost predicate SliceStart(text: string, start: string, stop: string, i: int) {
    exists j :: SliceAt(text, start, stop, i, j)
  }

  ghost predicate HasSlice(text: string, start: string, stop: string) {
    exists i :: SliceStart(text, start, stop, i)
  }

  /** What the regex engine returns as the whole match: nothing if no position
      starts a match, else the text from the first such position up to the
      first `stop` after `start` and at least one further character. */
  ghost predicate IsFirstSlice(text: string, start: string, stop: string, r: Option<string>) {
    match r
    case None => !HasSlice(text, start, stop)
    case Some(v) =>
      exists i, j :: SliceAt(text, start, stop, i, j)
        && (forall i' :: 0 <= i' < i ==> !SliceStart(text, start, stop, i'))
        && v == text[i..j]
  }

  /** The lazy group, having consumed `[body, k)` without meeting `stop`. */
  function LazyEnd(text: string, stop: string, body: nat, k: nat): (r: Option<nat>)
    requires body <= k
    requires forall m :: body <= m < k ==> m < |text| && DotOrNewline(text[m])
    requires forall m :: body < m <= k ==> !OccursAt(text, stop, m)
    ensures r.Some? ==> IsLazyEnd(text, stop, body, r.value)
    ensures r.None? ==> forall j :: !IsLazyEnd(text, stop, body, j)
    decreases |text| - k
  {
    if k >= |text| || !DotOrNewline(text[k]) then None
    else if OccursAt(text, stop, k + 1) then Some(k + 1)
    else LazyEnd(text, stop, body, k + 1)
  }

  function SliceFrom(text: string, start: string, stop: string, from: nat): (r: Option<(nat, nat)>)
    requires from <= |text|
    ensures r.Some? ==> from <= r.value.0 && SliceAt(text, start, stop, r.value.0, r.value.1)
    ensures r.Some? ==> forall i :: from <= i < r.value.0 ==> !SliceStart(text, start, stop, i)
    ensures r.None? ==> forall i :: from <= i ==> !SliceStart(text, start, stop, i)
    decreases |text| - from
  {
    var found := if OccursAt(text, start, from) then LazyEnd(text, stop, from + |start|, from + |start|) else None;
    if found.Some? then Some((from, found.value))
    else if from == |text| then None
    else SliceFrom(text, start, stop, from + 1)
  }

  function FirstSlice(text: string, start: string, stop: string): (r: Option<string>)
    ensures IsFirstSlice(text, start, stop, r)
    ensures r.Some? <==> HasSlice(text, start, stop)
  {
    match SliceFrom(text, start, stop, 0)
    case None => None
    case Some((i, j)) =>
      assert SliceStart(text, start, stop, i);
      Some(text[i..j])
  }

  lemma LazyEndUnique(text: string, stop: string, body: int, j1: int, j2: int)
    requires IsLazyEnd(text, stop, body, j1) && IsLazyEnd(text, stop, body, j2)
    ensures j1 == j2
  {
  }

  /** The description in IsFirstSlice fixes the slice. */
  lemma FirstSliceDetermined(text: string, start: string, stop: string, r1: Option<string>, r2: Option<string>)
    requires IsFirstSlice(text, start, stop, r1) && IsFirstSlice(text, start, stop, r2)
    ensures r1 == r2
  {
    if r1.Some? {
      var i1, j1 :| SliceAt(text, start, stop, i1, j1)
        && (forall i' :: 0 <= i' < i1 ==> !SliceStart(text, start, stop, i')) && r1.value == text[i1..j1];
      assert SliceStart(text, start, stop, i1);
      var i2, j2 :| SliceAt(text, start, stop, i2, j2)
        && (forall i' :: 0 <= i' < i2 ==> !SliceStart(text, start, stop, i')) && r2.value == text[i2..j2];
      assert SliceStart(text, start, stop, i2);
      assert i1 == i2;
      LazyEndUnique(text, stop, i1 + |start|, j1, j2);
    } else if r2.Some? {
      var i2, j2 :| SliceAt(text, start, stop, i2, j2) && r2.value == text[i2..j2];
      assert SliceStart(text, start, stop, i2);
    }
  }

  lemma FirstSliceIsTheSlice(text: string, start: string, stop: string)
    ensures forall r :: IsFirstSlice(text, start, stop, r) ==> r == FirstSlice(text, start, stop)
  {
    forall r | IsFirstSlice(text, start, stop, r)
      ensures r == FirstSlice(text, start, stop)
    {
      FirstSliceDetermined(text, start, stop, r, FirstSlice(text, start, stop));
    }
  }
}
