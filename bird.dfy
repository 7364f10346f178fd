/** The client object of src/index.ts: it remembers the control-socket path,
    accepts the daemon's greeting on `connect`, refuses commands until then,
    and cleans each reply before handing it back. The socket itself is not
    modelled: the greeting and the reply are parameters of the methods. */
module BirdClient {
  import opened Wrappers
  import opened JsRegex

  const DefaultSocketPath := "/run/bird/bird.ctl"
  const FailedToConnect := "Failed to connect to bird socket"
  const NotConnected := "Socket is not connected"

  /** The constructor's optional argument; `socketPath` may itself be left out. */
  datatype BirdOptions = BirdOptions(socketPath: Option<string>)

  /** How a returned promise settles. */
  datatype Settled<T> = Resolved(value: T) | Rejected(message: string)

  /** `options?.socketPath ?? "/run/bird/bird.ctl"`: only a missing path falls
      back to the default; any given string, even an empty one, is kept. */
  function SocketPathOf(options: Option<BirdOptions>): (path: string)
    ensures options.Some? && options.value.socketPath.Some? ==> path == options.value.socketPath.value
    ensures options.None? || options.value.socketPath.None? ==> path == DefaultSocketPath
  {
    match options
    case Some(BirdOptions(Some(p))) => p
    case _ => DefaultSocketPath
  }

  // ---------------------------------------------------------------------------
  // The greeting test `/BIRD [0-9]+\.[0-9]+ ready./`
  //
  // Both digit runs are followed by a non-digit in the pattern, so backtracking
  // never shortens them: the greedy runs decide the match.

  /** `[0-9]+ ready.` at the head of `v`. */
  predicate MinorAtHead(v: string) {
    var m := RunLen(v, Digits);
    m > 0 && m + 6 < |v| && v[m..m + 6] == " ready" && !IsLineTerminator(v[m + 6])
  }

  /** `[0-9]+\.[0-9]+ ready.` at the head of `u`. */
  predicate VersionAtHead(u: string) {
    var n := RunLen(u, Digits);
    n > 0 && n < |u| && u[n] == '.' && MinorAtHead(u[n + 1..])
  }

  /** The whole regex at the head of `t`. */
  predicate GreetingAtHead(t: string) {
    |t| >= 5 && t[..5] == "BIRD " && VersionAtHead(t[5..])
  }

  /** The regex matches at position `i`. */
  predicate GreetingAt(s: string, i: int) {
    0 <= i <= |s| && GreetingAtHead(s[i..])
  }

  function GreetingFrom(s: string, from: nat): (r: Option<nat>)
    requires from <= |s|
    ensures r.Some? ==> from <= r.value && GreetingAt(s, r.value)
    ensures r.None? ==> forall i :: from <= i ==> !GreetingAt(s, i)
    decreases |s| - from
  {
    if GreetingAt(s, from) then Some(from)
    else if from == |s| then None
    else GreetingFrom(s, from + 1)
  }

  /** `data.toString().match(/BIRD [0-9]+\.[0-9]+ ready./)` is not null. */
  function Greets(s: string): (b: bool)
    ensures b <==> exists i :: GreetingAt(s, i)
  {
    GreetingFrom(s, 0).Some?
  }

  /** `[0-9]+ ready.` as matched: the minor number, ` ready` and one character. */
  function MinorText(minor: string, c: char): string {
    minor + " ready" + [c]
  }

  /** `[0-9]+\.[0-9]+ ready.` as matched. */
  function VersionText(major: string, minor: string, c: char): string {
    major + "." + MinorText(minor, c)
  }

  /** The text the greeting regex matches: a version of exactly two numbers,
      then ` ready` and one character other than a line terminator. */
  function GreetingText(major: string, minor: string, c: char): string {
    "BIRD " + VersionText(major, minor, c)
  }

  /** A greeting, described without the scan: the matched text anywhere in the data. */
  ghost predicate IsGreeting(s: string) {
    exists p, major, minor, c, q :: IsNumeral(major) && IsNumeral(minor) && !IsLineTerminator(c)
      && s == p + GreetingText(major, minor, c) + q
  }

  /** A numeral followed by a non-digit is the digit run at the head of the text. */
  lemma RunAtHead(u: string, numeral: string)
    requires IsNumeral(numeral) && numeral <= u && (|u| == |numeral| || !IsDigit(u[|numeral|]))
    ensures RunLen(u, Digits) == |numeral|
  {
    assert forall k :: 0 <= k < |numeral| ==> u[k] == numeral[k];
    RunLenUnique(u, Digits, |numeral|);
  }

  lemma MinorAccepted(minor: string, c: char, q: string)
    requires IsNumeral(minor) && !IsLineTerminator(c)
    ensures MinorAtHead(MinorText(minor, c) + q)
  {
    var v := MinorText(minor, c) + q;
    assert v == minor + (" ready" + [c] + q);
    RunAtHead(v, minor);
    assert v[|minor|..|minor| + 6] == " ready";
    assert v[|minor| + 6] == c;
  }

  lemma VersionAccepted(major: string, minor: string, c: char, q: string)
    requires IsNumeral(major) && IsNumeral(minor) && !IsLineTerminator(c)
    ensures VersionAtHead(VersionText(major, minor, c) + q)
  {
    var u := VersionText(major, minor, c) + q;
    assert u == major + ("." + (MinorText(minor, c) + q));
    RunAtHead(u, major);
    assert u[|major| + 1..] == MinorText(minor, c) + q;
    MinorAccepted(minor, c, q);
  }

  /** The greeting text is matched wherever it stands in the data. */
  lemma GreetingAccepted(p: string, major: string, minor: string, c: char, q: string)
    requires IsNumeral(major) && IsNumeral(minor) && !IsLineTerminator(c)
    ensures GreetingAt(p + GreetingText(major, minor, c) + q, |p|)
  {
    var s := p + GreetingText(major, minor, c) + q;
    var t := s[|p|..];
    assert t == "BIRD " + (VersionText(major, minor, c) + q);
    assert t[..5] == "BIRD ";
    assert t[5..] == VersionText(major, minor, c) + q;
    VersionAccepted(major, minor, c, q);
  }

  lemma MinorShape(v: string) returns (minor: string, c: char, q: string)
    requires MinorAtHead(v)
    ensures IsNumeral(minor) && !IsLineTerminator(c) && v == MinorText(minor, c) + q
  {
    var m := RunLen(v, Digits);
    minor, c, q := v[..m], v[m + 6], v[m + 7..];
    assert v == v[..m] + v[m..m + 6] + [v[m + 6]] + v[m + 7..];
  }

  lemma VersionShape(u: string) returns (major: string, minor: string, c: char, q: string)
    requires VersionAtHead(u)
    ensures IsNumeral(major) && IsNumeral(minor) && !IsLineTerminator(c)
    ensures u == VersionText(major, minor, c) + q
  {
    var n := RunLen(u, Digits);
    minor, c, q := MinorShape(u[n + 1..]);
    major := u[..n];
    assert u == u[..n] + [u[n]] + u[n + 1..];
  }

  lemma HeadShape(t: string) returns (major: string, minor: string, c: char, q: string)
    requires GreetingAtHead(t)
    ensures IsNumeral(major) && IsNumeral(minor) && !IsLineTerminator(c)
    ensures t == GreetingText(major, minor, c) + q
  {
    major, minor, c, q := VersionShape(t[5..]);
    assert t == t[..5] + t[5..];
    TextAssoc("BIRD ", VersionText(major, minor, c), q);
  }

  lemma TextAssoc(a: string, b: string, c: string)
    ensures a + (b + c) == a + b + c
  {
  }

  /** Whatever the regex matches is the greeting text. */
  lemma GreetingAtShape(s: string, i: int)
    requires GreetingAt(s, i)
    ensures IsGreeting(s)
  {
    var major, minor, c, q := HeadShape(s[i..]);
    var p := s[..i];
    assert s == p + s[i..];
    TextAssoc(p, GreetingText(major, minor, c), q);
    GreetingWitness(s, p, major, minor, c, q);
  }

  lemma GreetingWitness(s: string, p: string, major: string, minor: string, c: char, q: string)
    requires IsNumeral(major) && IsNumeral(minor) && !IsLineTerminator(c)
    requires s == p + GreetingText(major, minor, c) + q
    ensures IsGreeting(s)
  {
  }

  /** The scan accepts exactly the data that holds a greeting. */
  lemma GreetsIsGreeting(s: string)
    ensures Greets(s) <==> IsGreeting(s)
  {
    if Greets(s) {
      var i :| GreetingAt(s, i);
      GreetingAtShape(s, i);
    }
    if IsGreeting(s) {
      var p, major, minor, c, q :| IsNumeral(major) && IsNumeral(minor) && !IsLineTerminator(c)
        && s == p + GreetingText(major, minor, c) + q;
      GreetingAccepted(p, major, minor, c, q);
    }
  }

  /** A match needs a `B` where it starts. */
  lemma GreetingAtStart(s: string, i: int)
    ensures GreetingAt(s, i) ==> i < |s| && s[i] == 'B'
  {
    if GreetingAt(s, i) {
      assert s[i..][..5][0] == s[i];
    }
  }

  /** The daemon's greeting for a version of three numbers. */
  function ThreePartGreeting(major: string, minor: string, patch: string): string {
    "BIRD " + (major + "." + (minor + "." + (patch + " ready.")))
  }

  /** After a minor number, a `.` where ` ready` should stand. */
  lemma MinorRefused(minor: string, rest: string)
    requires IsNumeral(minor)
    ensures !MinorAtHead(minor + "." + rest)
  {
    var v := minor + "." + rest;
    RunAtHead(v, minor);
    assert v[|minor|] == '.';
  }

  lemma VersionRefused(major: string, minor: string, rest: string)
    requires IsNumeral(major) && IsNumeral(minor)
    ensures !VersionAtHead(major + "." + (minor + "." + rest))
  {
    var u := major + "." + (minor + "." + rest);
    RunAtHead(u, major);
    assert u[|major| + 1..] == minor + "." + rest;
    MinorRefused(minor, rest);
  }

  /** Whatever follows it, the three-number greeting does not match where it starts. */
  lemma ThreePartNotAtHead(major: string, minor: string, patch: string, q: string)
    requires IsNumeral(major) && IsNumeral(minor) && IsNumeral(patch)
    ensures !GreetingAtHead(ThreePartGreeting(major, minor, patch) + q)
  {
    var t := ThreePartGreeting(major, minor, patch) + q;
    assert t[5..] == major + "." + (minor + "." + (patch + " ready." + q));
    VersionRefused(major, minor, patch + " ready." + q);
  }

  lemma NoLaterB(major: string, minor: string, patch: string)
    requires IsNumeral(major) && IsNumeral(minor) && IsNumeral(patch)
    ensures forall k :: 0 < k < |ThreePartGreeting(major, minor, patch)| ==> ThreePartGreeting(major, minor, patch)[k] != 'B'
  {
    var s := ThreePartGreeting(major, minor, patch);
    var t := "IRD " + (major + "." + (minor + "." + (patch + " ready.")));
    assert s == "B" + t;
    forall c | c in t ensures c != 'B' {
      if c in major {
        var k :| 0 <= k < |major| && major[k] == c;
      } else if c in minor {
        var k :| 0 <= k < |minor| && minor[k] == c;
      } else if c in patch {
        var k :| 0 <= k < |patch| && patch[k] == c;
      }
    }
    forall k | 0 < k < |s| ensures s[k] != 'B' {
      assert s[k] == t[k - 1] && t[k - 1] in t;
    }
  }

  /** A three-number version, the form BIRD 2 prints (`BIRD 2.0.8 ready.`), is
      not a greeting, whatever text without a `B` surrounds it: after `BIRD 2.0`
      the regex needs ` ready`, and no other `B` can start a match. */
  lemma ThreePartVersionRejected(p: string, major: string, minor: string, patch: string, q: string)
    requires IsNumeral(major) && IsNumeral(minor) && IsNumeral(patch)
    requires 'B' !in p && 'B' !in q
    ensures !Greets(p + ThreePartGreeting(major, minor, patch) + q)
  {
    var g := ThreePartGreeting(major, minor, patch);
    var s := p + g + q;
    NoLaterB(major, minor, patch);
    forall i ensures !GreetingAt(s, i) {
      GreetingAtStart(s, i);
      if 0 <= i < |p| {
        assert s[i] == p[i] && p[i] in p;
      } else if i == |p| {
        assert s[i..] == g + q;
        ThreePartNotAtHead(major, minor, patch, q);
      } else if |p| < i < |p| + |g| {
        assert s[i] == g[i - |p|];
      } else if |p| + |g| <= i < |s| {
        assert s[i] == q[i - |p| - |g|] && q[i - |p| - |g|] in q;
      }
    }
  }

  /** The first chunk a BIRD 2 daemon sends, reply code and newline included,
      is refused. */
  lemma DaemonGreetingRejected()
    ensures !Greets("0001 BIRD 2.0.8 ready.\n")
  {
    assert IsNumeral("2") && IsNumeral("0") && IsNumeral("8");
    assert "0001 BIRD 2.0.8 ready.\n" == "0001 " + ThreePartGreeting("2", "0", "8") + "\n";
    ThreePartVersionRejected("0001 ", "2", "0", "8", "\n");
  }

  // ---------------------------------------------------------------------------
  // Reply cleaning: `.replaceAll(/([0-9]{4}(-|\s)?)|(^\s+)/gm, "")`
  // followed by `.replaceAll(/  +/g, " ")`

  /** The characters either replacement may delete. */
  predicate Erasable(c: char) {
    IsDigit(c) || c == '-' || IsSpace(c)
  }

  /** `s` without the characters for which `drop` holds. */
  function Remove(s: string, drop: char -> bool): (r: string)
    ensures |r| <= |s|
    ensures forall c :: c in r ==> c in s && !drop(c)
  {
    if s == [] then []
    else (if drop(s[0]) then [] else [s[0]]) + Remove(s[1..], drop)
  }

  lemma {:induction false} RemoveAppend(x: string, y: string, drop: char -> bool)
    ensures Remove(x + y, drop) == Remove(x, drop) + Remove(y, drop)
    decreases |x|
  {
    if x != [] {
      var h := if drop(x[0]) then [] else [x[0]];
      assert (x + y)[0] == x[0] && (x + y)[1..] == x[1..] + y;
      assert Remove(x + y, drop) == h + Remove(x[1..] + y, drop);
      assert Remove(x, drop) == h + Remove(x[1..], drop);
      RemoveAppend(x[1..], y, drop);
    } else {
      assert x + y == y;
    }
  }

  lemma {:induction false} RemoveDropped(x: string, drop: char -> bool)
    requires forall k :: 0 <= k < |x| ==> drop(x[k])
    ensures Remove(x, drop) == []
  {
    if x != [] {
      RemoveDropped(x[1..], drop);
    }
  }

  /** Length of the reply code at the head of `s`: four digits, with the `-` or
      white-space character after them when there is one; 0 when there is no code. */
  function CodeLen(s: string): (n: nat)
    ensures n == 0 || n == 4 || n == 5
    ensures n <= |s| && forall k :: 0 <= k < n ==> Erasable(s[k])
  {
    if |s| >= 4 && AllMatch(s[..4], Digits) then
      assert forall k :: 0 <= k < 4 ==> s[..4][k] == s[k];
      if |s| > 4 && (s[4] == '-' || IsSpace(s[4])) then 5 else 4
    else 0
  }

  /** The first replacement, scanning left to right. `bol` says whether the
      current position is a line start in the original text (the start of the
      text, or just after a line terminator), where `^` matches. At each
      position the code alternative is tried first, then `^\s+`. */
  function Strip(s: string, bol: bool): (r: string)
    ensures |r| <= |s|
    decreases |s|
  {
    if s == [] then []
    else
      var code := CodeLen(s);
      if code > 0 then Strip(s[code..], IsLineTerminator(s[code - 1]))
      else if bol && IsSpace(s[0]) then
        var n := RunLen(s, Whitespace);
        Strip(s[n..], IsLineTerminator(s[n - 1]))
      else [s[0]] + Strip(s[1..], IsLineTerminator(s[0]))
  }

  /** Dropping a prefix of dropped characters leaves the same text. */
  lemma RemoveDroppedPrefix(s: string, n: nat, drop: char -> bool)
    requires n <= |s| && forall k :: 0 <= k < n ==> drop(s[k])
    ensures Remove(s, drop) == Remove(s[n..], drop)
  {
    assert s == s[..n] + s[n..];
    RemoveAppend(s[..n], s[n..], drop);
    RemoveDropped(s[..n], drop);
  }

  /** The first replacement deletes only digits, `-` and white space: every
      other character survives, in order. */
  lemma {:induction false} StripKeepsText(s: string, bol: bool)
    ensures Remove(Strip(s, bol), Erasable) == Remove(s, Erasable)
    decreases |s|
  {
    if s != [] {
      var code := CodeLen(s);
      if code > 0 {
        StripKeepsText(s[code..], IsLineTerminator(s[code - 1]));
        RemoveDroppedPrefix(s, code, Erasable);
      } else if bol && IsSpace(s[0]) {
        var n := RunLen(s, Whitespace);
        StripKeepsText(s[n..], IsLineTerminator(s[n - 1]));
        RemoveDroppedPrefix(s, n, Erasable);
      } else {
        StripKeepsText(s[1..], IsLineTerminator(s[0]));
      }
    }
  }

  /** A reply code and its separator are dropped, whatever follows. */
  lemma StripReplyCode(code: string, sep: char, rest: string, bol: bool)
    requires |code| == 4 && AllMatch(code, Digits) && (sep == '-' || IsSpace(sep))
    ensures Strip(code + [sep] + rest, bol) == Strip(rest, IsLineTerminator(sep))
  {
    var s := code + [sep] + rest;
    assert s[..4] == code && s[4] == sep;
    assert s[5..] == rest;
  }

  /** No four digits in a row. */
  predicate NoCode(s: string) {
    forall k :: 0 <= k <= |s| - 4 ==> !(IsDigit(s[k]) && IsDigit(s[k + 1]) && IsDigit(s[k + 2]) && IsDigit(s[k + 3]))
  }

  /** Four digits are deleted wherever they stand, even inside a longer number. */
  lemma StripFourDigits(digits: string, rest: string, bol: bool)
    requires |digits| == 4 && AllMatch(digits, Digits)
    requires rest == [] || (rest[0] != '-' && !IsSpace(rest[0]))
    ensures Strip(digits + rest, bol) == Strip(rest, false)
  {
    var s := digits + rest;
    assert s[..4] == digits && s[4..] == rest && s[3] == digits[3];
    assert rest != [] ==> s[4] == rest[0];
  }

  /** So a five-digit AS number keeps only its last digit: `65001` becomes `1`. */
  lemma StripFiveDigitNumber(digits: string, last: char, bol: bool)
    requires |digits| == 4 && AllMatch(digits, Digits) && IsDigit(last)
    ensures Strip(digits + [last], bol) == [last]
  {
    StripFourDigits(digits, [last], bol);
  }

  /** At a line start, the white space up to the first other character is deleted. */
  lemma StripLineIndent(indent: string, rest: string)
    requires indent != [] && AllMatch(indent, Whitespace)
    requires rest == [] || !IsSpace(rest[0])
    ensures Strip(indent + rest, true) == Strip(rest, IsLineTerminator(indent[|indent| - 1]))
  {
    var s := indent + rest;
    assert s[0] == indent[0] && !IsDigit(s[0]);
    assert CodeLen(s) == 0 by {
      if |s| >= 4 {
        assert s[..4][0] == s[0];
      }
    }
    assert rest != [] ==> s[|indent|] == rest[0];
    RunLenUnique(s, Whitespace, |indent|);
    assert s[|indent|..] == rest && s[|indent| - 1] == indent[|indent| - 1];
  }

  /** Only a digit can start a reply code. */
  lemma CodeNeedsDigit(s: string)
    requires s != [] && !IsDigit(s[0])
    ensures CodeLen(s) == 0
  {
    if |s| >= 4 {
      assert s[..4][0] == s[0];
    }
  }

  /** A character that starts no reply code and is not indentation is kept, and
      the scan goes on with the line-start flag that character sets. */
  lemma StripKeep(c: char, rest: string, bol: bool)
    requires CodeLen([c] + rest) == 0 && !(bol && IsSpace(c))
    ensures Strip([c] + rest, bol) == [c] + Strip(rest, IsLineTerminator(c))
  {
    var s := [c] + rest;
    assert s[0] == c && s[1..] == rest;
  }

  /** Text within a line and without digits. */
  predicate Words(p: string) {
    forall k :: 0 <= k < |p| ==> !IsDigit(p[k]) && !IsLineTerminator(p[k])
  }

  /** Words are kept as they are, and the text after them is scanned off the
      line start. */
  lemma {:induction false} StripKeepsWords(p: string, rest: string, bol: bool)
    requires Words(p) && (bol && p != [] ==> !IsSpace(p[0]))
    ensures Strip(p + rest, bol) == p + Strip(rest, bol && p == [])
    decreases |p|
  {
    if p == [] {
      assert p + rest == rest;
    } else {
      StripWordHead(p, rest, bol);
      StripKeepsWords(p[1..], rest, false);
      ConsAppend(p, Strip(rest, false));
    }
  }

  lemma StripWordHead(p: string, rest: string, bol: bool)
    requires p != [] && Words(p) && (bol ==> !IsSpace(p[0]))
    ensures Strip(p + rest, bol) == [p[0]] + Strip(p[1..] + rest, false)
  {
    var s := p + rest;
    assert s == [p[0]] + (p[1..] + rest);
    CodeNeedsDigit(s);
    StripKeep(p[0], p[1..] + rest, bol);
  }

  lemma ConsAppend(p: string, x: string)
    requires p != []
    ensures [p[0]] + (p[1..] + x) == p + x
  {
    assert p == [p[0]] + p[1..];
  }

  /** So four digits are deleted anywhere in a line: `Neighbor AS: 65001`
      becomes `Neighbor AS: 1`. */
  lemma StripNumberInLine(p: string, digits: string, rest: string, bol: bool)
    requires Words(p) && (bol && p != [] ==> !IsSpace(p[0]))
    requires |digits| == 4 && AllMatch(digits, Digits)
    requires rest == [] || (rest[0] != '-' && !IsSpace(rest[0]))
    ensures Strip(p + digits + rest, bol) == p + Strip(rest, false)
  {
    assert p + digits + rest == p + (digits + rest);
    StripKeepsWords(p, digits + rest, bol);
    StripFourDigits(digits, rest, bol && p == []);
  }

  /** A five-digit number after a label keeps only its last digit. */
  lemma StripFiveDigitsInLine(lead: string, digits: string, last: char, bol: bool)
    requires Words(lead) && (bol && lead != [] ==> !IsSpace(lead[0]))
    requires |digits| == 4 && AllMatch(digits, Digits) && IsDigit(last)
    ensures Strip(lead + digits + [last], bol) == lead + [last]
  {
    StripNumberInLine(lead, digits, [last], bol);
    StripKeepsWords([last][..0], [last], false);
    StripKeep(last, [], false);
  }

  lemma AsNumberExample()
    ensures Strip("Neighbor AS: 65001", true) == "Neighbor AS: 1"
  {
    var lead := "Neighbor AS: ";
    assert Words(lead) by {
      forall k | 0 <= k < |lead| ensures !IsDigit(lead[k]) && !IsLineTerminator(lead[k]) {
        assert lead[k] in "NeighborAS: ";
      }
    }
    assert AllMatch("6500", Digits);
    assert "Neighbor AS: 65001" == lead + "6500" + ['1'];
    StripFiveDigitsInLine(lead, "6500", '1', true);
  }

  /** No white space right after a line terminator. */
  predicate NoIndent(s: string) {
    forall k :: 0 < k < |s| && IsLineTerminator(s[k - 1]) ==> !IsSpace(s[k])
  }

  lemma NoCodeHead(s: string)
    requires NoCode(s)
    ensures CodeLen(s) == 0
  {
    if |s| >= 4 {
      assert s[..4][0] == s[0] && s[..4][1] == s[1] && s[..4][2] == s[2] && s[..4][3] == s[3];
    }
  }

  lemma PlainTail(s: string)
    requires s != [] && NoCode(s) && NoIndent(s)
    ensures NoCode(s[1..]) && NoIndent(s[1..])
    ensures IsLineTerminator(s[0]) && |s| > 1 ==> !IsSpace(s[1])
  {
    var t := s[1..];
    forall k | 0 <= k <= |t| - 4
      ensures !(IsDigit(t[k]) && IsDigit(t[k + 1]) && IsDigit(t[k + 2]) && IsDigit(t[k + 3]))
    {
      assert t[k] == s[k + 1] && t[k + 1] == s[k + 2] && t[k + 2] == s[k + 3] && t[k + 3] == s[k + 4];
    }
    forall k | 0 < k < |t| && IsLineTerminator(t[k - 1]) ensures !IsSpace(t[k]) {
      assert t[k - 1] == s[k] && t[k] == s[k + 1];
    }
  }

  /** Text without four digits in a row, and without white space at the start
      of a line, is left as it is. */
  lemma {:induction false} StripPlain(s: string, bol: bool)
    requires NoCode(s) && NoIndent(s)
    requires bol && s != [] ==> !IsSpace(s[0])
    ensures Strip(s, bol) == s
    decreases |s|
  {
    if s != [] {
      NoCodeHead(s);
      PlainTail(s);
      StripPlain(s[1..], IsLineTerminator(s[0]));
    }
  }

  lemma MonthDayKept(t: string)
    requires |t| == 5 && t[2] == '-'
    requires forall k :: 0 <= k < |t| ==> IsDigit(t[k]) || t[k] == '-'
    ensures Strip(t, false) == t
  {
    MonthDayNoCode(t);
    MonthDayNoIndent(t);
    StripPlain(t, false);
  }

  lemma MonthDayNoCode(t: string)
    requires |t| == 5 && t[2] == '-'
    ensures NoCode(t)
  {
    assert !IsDigit(t[2]);
    forall k | 0 <= k <= |t| - 4
      ensures !(IsDigit(t[k]) && IsDigit(t[k + 1]) && IsDigit(t[k + 2]) && IsDigit(t[k + 3]))
    {
      if k == 0 {
        assert !IsDigit(t[k + 2]);
      } else {
        assert !IsDigit(t[k + 1]);
      }
    }
  }

  lemma MonthDayNoIndent(t: string)
    requires forall k :: 0 <= k < |t| ==> IsDigit(t[k]) || t[k] == '-'
    ensures NoIndent(t)
  {
    forall j | 0 <= j < |t| ensures !IsLineTerminator(t[j]) {
      assert IsDigit(t[j]) || t[j] == '-';
    }
  }

  /** A date loses its year: `2024-01-31` becomes `01-31`. */
  lemma StripDate(year: string, month: string, day: string, bol: bool)
    requires |year| == 4 && AllMatch(year, Digits)
    requires |month| == 2 && AllMatch(month, Digits) && |day| == 2 && AllMatch(day, Digits)
    ensures Strip(year + "-" + month + "-" + day, bol) == month + "-" + day
  {
    var t := month + "-" + day;
    DateText(year, month, day);
    StripReplyCode(year, '-', t, bol);
    MonthDayShape(month, day);
    MonthDayKept(t);
  }

  lemma DateText(year: string, month: string, day: string)
    ensures year + "-" + month + "-" + day == year + ['-'] + (month + "-" + day)
  {
  }

  lemma MonthDayShape(month: string, day: string)
    requires |month| == 2 && AllMatch(month, Digits) && |day| == 2 && AllMatch(day, Digits)
    ensures var t := month + "-" + day;
      |t| == 5 && t[2] == '-' && forall k :: 0 <= k < |t| ==> IsDigit(t[k]) || t[k] == '-'
  {
    var t := month + "-" + day;
    forall k | 0 <= k < |t| ensures IsDigit(t[k]) || t[k] == '-' {
      if k < 2 { assert t[k] == month[k]; } else if k > 2 { assert t[k] == day[k - 3]; }
    }
  }

  /** No two spaces in a row. */
  predicate NoDoubleSpace(s: string) {
    forall k :: 0 <= k < |s| - 1 ==> !(s[k] == ' ' && s[k + 1] == ' ')
  }

  /** The number of spaces at the head of `s`. */
  function Blanks(s: string): (n: nat)
    ensures n <= |s| && (forall k :: 0 <= k < n ==> s[k] == ' ') && (n == |s| || s[n] != ' ')
  {
    if s != [] && s[0] == ' ' then 1 + Blanks(s[1..]) else 0
  }

  /** The second replacement: every run of spaces becomes one space. */
  function Collapse(s: string): (r: string)
    ensures |r| <= |s|
    ensures NoDoubleSpace(r)
    ensures (r != [] && r[0] == ' ') <==> (s != [] && s[0] == ' ')
    decreases |s|
  {
    if s == [] then []
    else if s[0] == ' ' then [' '] + Collapse(s[Blanks(s)..])
    else [s[0]] + Collapse(s[1..])
  }

  /** Text with no double space is left as it is; so collapsing twice is collapsing once. */
  lemma {:induction false} CollapseIdentity(s: string)
    requires NoDoubleSpace(s)
    ensures Collapse(s) == s
    decreases |s|
  {
    if s != [] {
      if s[0] == ' ' {
        assert Blanks(s) == 1;
      }
      CollapseIdentity(s[1..]);
    }
  }

  lemma CollapseIdempotent(s: string)
    ensures Collapse(Collapse(s)) == Collapse(s)
  {
    CollapseIdentity(Collapse(s));
  }

  /** A prefix of spaces that cannot be extended is the head run. */
  lemma {:induction false} BlanksUnique(s: string, n: nat)
    requires n <= |s| && (forall k :: 0 <= k < n ==> s[k] == ' ') && (n == |s| || s[n] != ' ')
    ensures Blanks(s) == n
    decreases n
  {
    if n > 0 {
      BlanksUnique(s[1..], n - 1);
    }
  }

  /** Two spaces collapse as one does: with `CollapseIdentity`, this fixes
      `Collapse` on every text, and a run of spaces leaves exactly one. */
  lemma {:induction false} CollapseRun(x: string, y: string)
    ensures Collapse(x + "  " + y) == Collapse(x + " " + y)
    decreases |x|
  {
    var b := Blanks(x);
    if x != [] && x[0] != ' ' {
      CollapseRunKeep(x, y);
      CollapseRun(x[1..], y);
    } else if b < |x| {
      CollapseRunSkip(x, y);
      CollapseRun(x[b..], y);
    } else {
      CollapseRunTail(x, y);
    }
  }

  lemma CollapseRunKeep(x: string, y: string)
    requires x != [] && x[0] != ' '
    ensures Collapse(x + "  " + y) == [x[0]] + Collapse(x[1..] + "  " + y)
    ensures Collapse(x + " " + y) == [x[0]] + Collapse(x[1..] + " " + y)
  {
    var s, t := x + "  " + y, x + " " + y;
    assert s[0] == x[0] && s[1..] == x[1..] + "  " + y;
    assert t[0] == x[0] && t[1..] == x[1..] + " " + y;
  }

  lemma CollapseRunSkip(x: string, y: string)
    requires x != [] && x[0] == ' ' && Blanks(x) < |x|
    ensures var b := Blanks(x);
      Collapse(x + "  " + y) == [' '] + Collapse(x[b..] + "  " + y) &&
      Collapse(x + " " + y) == [' '] + Collapse(x[b..] + " " + y)
  {
    var b := Blanks(x);
    var s, t := x + "  " + y, x + " " + y;
    assert forall k :: 0 <= k <= b ==> s[k] == x[k] && t[k] == x[k];
    BlanksUnique(s, b);
    BlanksUnique(t, b);
    assert s[b..] == x[b..] + "  " + y;
    assert t[b..] == x[b..] + " " + y;
  }

  lemma CollapseRunTail(x: string, y: string)
    requires forall k :: 0 <= k < |x| ==> x[k] == ' '
    ensures Collapse(x + "  " + y) == Collapse(x + " " + y)
  {
    SpacesThen(x + "  ", y);
    SpacesThen(x + " ", y);
  }

  /** Spaces at the head collapse into one, whatever follows. */
  lemma SpacesThen(w: string, y: string)
    requires w != [] && forall k :: 0 <= k < |w| ==> w[k] == ' '
    ensures Collapse(w + y) == [' '] + Collapse(y[Blanks(y)..])
  {
    var s := w + y;
    BlanksAfterSpaces(w, y);
    assert s[0] == ' ';
  }

  lemma BlanksAfterSpaces(w: string, y: string)
    requires forall k :: 0 <= k < |w| ==> w[k] == ' '
    ensures Blanks(w + y) == |w| + Blanks(y)
    ensures (w + y)[|w| + Blanks(y)..] == y[Blanks(y)..]
  {
    var m := Blanks(y);
    var s := w + y;
    assert forall k :: 0 <= k < |w| ==> s[k] == w[k];
    assert forall k :: 0 <= k < m ==> s[|w| + k] == y[k];
    assert forall k :: 0 <= k < |w| + m ==> s[k] == ' ' by {
      forall k | 0 <= k < |w| + m ensures s[k] == ' ' {
        if k >= |w| {
          assert s[k] == y[k - |w|];
        }
      }
    }
    assert m < |y| ==> s[|w| + m] == y[m];
    BlanksUnique(s, |w| + m);
    assert s[|w| + m..] == y[m..];
  }

  /** Collapsing deletes spaces and nothing else. */
  lemma {:induction false} CollapseKeepsText(s: string, drop: char -> bool)
    requires drop(' ')
    ensures Remove(Collapse(s), drop) == Remove(s, drop)
    decreases |s|
  {
    if s != [] {
      if s[0] == ' ' {
        var n := Blanks(s);
        CollapseKeepsText(s[n..], drop);
        RemoveDroppedPrefix(s, n, drop);
        assert ([' '] + Collapse(s[n..]))[1..] == Collapse(s[n..]);
      } else {
        CollapseKeepsText(s[1..], drop);
      }
    }
  }

  /** The reply `sendCommand` resolves with. */
  function CleanResponse(s: string): (r: string)
    ensures |r| <= |s|
    ensures NoDoubleSpace(r)
    ensures Remove(r, Erasable) == Remove(s, Erasable)
  {
    var stripped := Strip(s, true);
    StripKeepsText(s, true);
    CollapseKeepsText(stripped, Erasable);
    Collapse(stripped)
  }

  /** A reply with nothing to clean comes back as it is: no four digits in a
      row, no indented line, no double space. */
  lemma CleanPlain(s: string)
    requires NoCode(s) && NoIndent(s) && NoDoubleSpace(s) && (s == [] || !IsSpace(s[0]))
    ensures CleanResponse(s) == s
  {
    StripPlain(s, true);
    CollapseIdentity(s);
  }

  /** Each line loses its reply code and keeps its text: `1002-a\n1000 b` is
      answered as `a\nb`. */
  lemma CleanTwoLines(c1: string, l1: string, c2: string, l2: string)
    requires |c1| == 4 && AllMatch(c1, Digits) && |c2| == 4 && AllMatch(c2, Digits)
    requires Words(l1) && Words(l2) && NoDoubleSpace(l1) && NoDoubleSpace(l2)
    ensures CleanResponse(c1 + "-" + l1 + "\n" + c2 + " " + l2) == l1 + "\n" + l2
  {
    TwoLinesText(c1, l1, c2, l2);
    StripTwoLines(c1, l1, c2, l2);
    NoDoubleSpaceLines(l1, l2);
    CollapseIdentity(l1 + "\n" + l2);
  }

  lemma TwoLinesText(c1: string, l1: string, c2: string, l2: string)
    ensures c1 + "-" + l1 + "\n" + c2 + " " + l2 == c1 + ['-'] + (l1 + (['\n'] + (c2 + [' '] + l2)))
    ensures l1 + "\n" + l2 == l1 + (['\n'] + l2)
  {
  }

  lemma StripTwoLines(c1: string, l1: string, c2: string, l2: string)
    requires |c1| == 4 && AllMatch(c1, Digits) && |c2| == 4 && AllMatch(c2, Digits)
    requires Words(l1) && Words(l2)
    ensures Strip(c1 + ['-'] + (l1 + (['\n'] + (c2 + [' '] + l2))), true) == l1 + (['\n'] + l2)
  {
    var afterFirst := ['\n'] + (c2 + [' '] + l2);
    StripReplyCode(c1, '-', l1 + afterFirst, true);
    StripKeepsWords(l1, afterFirst, false);
    StripSecondLine(c2, l2);
  }

  lemma StripSecondLine(c2: string, l2: string)
    requires |c2| == 4 && AllMatch(c2, Digits) && Words(l2)
    ensures Strip(['\n'] + (c2 + [' '] + l2), false) == ['\n'] + l2
  {
    var second := c2 + [' '] + l2;
    CodeNeedsDigit(['\n'] + second);
    StripKeep('\n', second, false);
    StripReplyCode(c2, ' ', l2, true);
    StripKeepsWords(l2, [], false);
    assert l2 + [] == l2;
  }

  lemma NoDoubleSpaceLines(l1: string, l2: string)
    requires NoDoubleSpace(l1) && NoDoubleSpace(l2)
    ensures NoDoubleSpace(l1 + "\n" + l2)
  {
    var s := l1 + "\n" + l2;
    forall k | 0 <= k < |s| - 1 ensures !(s[k] == ' ' && s[k + 1] == ' ') {
      if k + 1 < |l1| {
        assert s[k] == l1[k] && s[k + 1] == l1[k + 1];
      } else if k > |l1| {
        assert s[k] == l2[k - |l1| - 1] && s[k + 1] == l2[k - |l1|];
      }
    }
  }

  // ---------------------------------------------------------------------------
  // The client

  class Bird {
    const socketPath: string
    var connected: bool
    /** The commands written to the socket, oldest first. */
    var written: seq<string>

    /** Nothing is written before the client counts as connected. */
    ghost predicate Valid()
      reads this
    {
      connected || written == []
    }

    constructor (options: Option<BirdOptions>)
      ensures socketPath == SocketPathOf(options)
      ensures !connected && written == []
      ensures Valid()
    {
      socketPath := SocketPathOf(options);
      connected := false;
      written := [];
    }

    /** Handles the first data the daemon sends. A greeting resolves with
        `true`; anything else rejects, yet the client counts as connected in
        both cases, since the source sets the flag after rejecting. */
    method Connect(greeting: string) returns (r: Settled<bool>)
      requires Valid()
      modifies this
      ensures Valid()
      ensures connected && written == old(written)
      ensures r == (if IsGreeting(greeting) then Resolved(true) else Rejected(FailedToConnect))
    {
      GreetsIsGreeting(greeting);
      if !Greets(greeting) {
        r := Rejected(FailedToConnect);
      } else {
        r := Resolved(true);
      }
      connected := true;
    }

    /** Refuses before `connect`; otherwise writes the command and resolves
        with the cleaned reply. */
    method SendCommand(command: string, reply: string) returns (r: Settled<string>)
      requires Valid()
      modifies this
      ensures Valid()
      ensures connected == old(connected)
      ensures !old(connected) ==> r == Rejected(NotConnected) && written == old(written)
      ensures old(connected) ==> r == Resolved(CleanResponse(reply)) && written == old(written) + [command]
    {
      if !connected {
        return Rejected(NotConnected);
      }
      written := written + [command];
      r := Resolved(CleanResponse(reply));
    }
  }

  /** A command sent before `connect` is refused and nothing is written. */
  method SendBeforeConnect(options: Option<BirdOptions>, command: string, reply: string) returns (r: Settled<string>, sent: seq<string>)
    ensures r == Rejected(NotConnected) && sent == []
  {
    var bird := new Bird(options);
    r := bird.SendCommand(command, reply);
    sent := bird.written;
  }

  /** After `connect`, a command is written and answered, whether or not the
      greeting was accepted. */
  method SendAfterConnect(options: Option<BirdOptions>, greeting: string, command: string, reply: string)
    returns (accepted: Settled<bool>, r: Settled<string>, sent: seq<string>)
    ensures accepted.Resolved? <==> IsGreeting(greeting)
    ensures r == Resolved(CleanResponse(reply)) && sent == [command]
  {
    var bird := new Bird(options);
    accepted := bird.Connect(greeting);
    r := bird.SendCommand(command, reply);
    sent := bird.written;
  }
}
