/** Cutting and splitting byte strings, one char per byte, as the wire parsers do. */
module WireText {
  import opened Options

  /** Drops one trailing line feed. */
  function TrimLf(s: string): (t: string) {
    if s != [] && s[|s| - 1] == '\n' then s[..|s| - 1] else s
  }

  /** strings.CutPrefix. */
  function CutPrefix(s: string, prefix: string): (rest: Option<string>)
    ensures rest.Some? <==> prefix <= s
    ensures rest.Some? ==> s == prefix + rest.value
  {
    if prefix <= s then Some(s[|prefix|..]) else None
  }

  predicate HasSuffix(s: string, suffix: string) {
    |suffix| <= |s| && s[|s| - |suffix|..] == suffix
  }

  /** strings.CutSuffix. */
  function CutSuffix(s: string, suffix: string): (rest: Option<string>)
    ensures rest.Some? <==> HasSuffix(s, suffix)
    ensures rest.Some? ==> s == rest.value + suffix
  {
    if HasSuffix(s, suffix) then Some(s[..|s| - |suffix|]) else None
  }

  /** bytes.Cut around the first c: what is before it and what is after it. */
  function Cut(s: string, c: char): (r: Option<(string, string)>)
    ensures r.Some? <==> c in s
    ensures r.Some? ==> s == r.value.0 + [c] + r.value.1 && c !in r.value.0
  {
    if s == [] then None
    else if s[0] == c then Some(([], s[1..]))
    else
      match Cut(s[1..], c)
      case None => None
      case Some(p) => Some(([s[0]] + p.0, p.1))
  }

  lemma {:induction false} CutFirst(a: string, c: char, b: string)
    requires c !in a
    ensures Cut(a + [c] + b, c) == Some((a, b))
  {
    var s := a + [c] + b;
    if a == [] {
      assert s[0] == c && s[1..] == b;
    } else {
      CutFirst(a[1..], c, b);
      assert s[0] == a[0] && s[1..] == a[1..] + [c] + b;
      assert [a[0]] + a[1..] == a;
    }
  }

  lemma TrimLine(s: string)
    ensures TrimLf(s + "\n") == s
  {
    assert (s + "\n")[..|s|] == s;
  }

  lemma CutConcat(prefix: string, rest: string)
    ensures CutPrefix(prefix + rest, prefix) == Some(rest)
  {
    assert prefix <= prefix + rest;
  }

  lemma CutSuffixConcat(rest: string, suffix: string)
    ensures CutSuffix(rest + suffix, suffix) == Some(rest)
  {
    assert (rest + suffix)[|rest|..] == suffix && (rest + suffix)[..|rest|] == rest;
  }

  // ---------------------------------------------------------------- fields

  /** ASCII white space, which bytes.Fields splits on when every byte is ASCII. */
  predicate IsSpace(c: char) {
    c == ' ' || '\t' <= c <= '\r'
  }

  /** isWireSpace. */
  predicate IsWireSpace(c: char) {
    c == ' ' || c == '\t' || c == '\n'
  }

  ghost predicate FreeOf(space: char -> bool, s: string) {
    forall i :: 0 <= i < |s| ==> !space(s[i])
  }

  ghost predicate IsToken(space: char -> bool, s: string) {
    s != [] && FreeOf(space, s)
  }

  function TokenEnd(space: char -> bool, s: string, from: nat): (n: nat)
    requires from <= |s| && FreeOf(space, s[..from])
    ensures from <= n <= |s| && FreeOf(space, s[..n]) && (n < |s| ==> space(s[n]))
    decreases |s| - from
  {
    if from == |s| || space(s[from]) then from
    else
      assert s[..from + 1] == s[..from] + [s[from]];
      TokenEnd(space, s, from + 1)
  }

  /** The maximal runs of bytes that are not white space. */
  function Fields(space: char -> bool, s: string): (ts: seq<string>)
    ensures forall i :: 0 <= i < |ts| ==> IsToken(space, ts[i])
    decreases |s|
  {
    if s == [] then []
    else if space(s[0]) then Fields(space, s[1..])
    else
      var n := TokenEnd(space, s, 0);
      [s[..n]] + Fields(space, s[n..])
  }

  lemma {:induction false} TokenEndIs(space: char -> bool, s: string, from: nat, n: nat)
    requires from <= n <= |s| && FreeOf(space, s[..from])
    requires (forall i :: from <= i < n ==> !space(s[i])) && (n < |s| ==> space(s[n]))
    ensures TokenEnd(space, s, from) == n
    decreases n - from
  {
    if from < n {
      assert s[..from + 1] == s[..from] + [s[from]];
      TokenEndIs(space, s, from + 1, n);
    }
  }

  lemma LeadingToken(space: char -> bool, t: string, rest: string)
    requires IsToken(space, t) && (rest != [] ==> space(rest[0]))
    ensures Fields(space, t + rest) == [t] + Fields(space, rest)
  {
    var s := t + rest;
    assert s[0] == t[0];
    TokenEndIs(space, s, 0, |t|);
    assert s[..|t|] == t && s[|t|..] == rest;
  }

  lemma LeadingSpace(space: char -> bool, c: char, rest: string)
    requires space(c)
    ensures Fields(space, [c] + rest) == Fields(space, rest)
  {
    assert ([c] + rest)[1..] == rest;
  }

  /** The tokens with one space between them. */
  function Spaced(ts: seq<string>): (s: string) {
    if ts == [] then [] else if |ts| == 1 then ts[0] else ts[0] + " " + Spaced(ts[1..])
  }

  /** Splitting a spaced-out list gives the list back exactly when it holds tokens. */
  lemma {:induction false} FieldsOfSpaced(space: char -> bool, ts: seq<string>)
    requires space(' ')
    ensures (forall i :: 0 <= i < |ts| ==> IsToken(space, ts[i])) <==> Fields(space, Spaced(ts)) == ts
  {
    if forall i :: 0 <= i < |ts| ==> IsToken(space, ts[i]) {
      if |ts| == 1 {
        LeadingToken(space, ts[0], []);
        assert ts[0] + [] == ts[0] && ts == [ts[0]];
      } else if |ts| > 1 {
        FieldsOfSpaced(space, ts[1..]);
        var rest := " " + Spaced(ts[1..]);
        LeadingToken(space, ts[0], rest);
        LeadingSpace(space, ' ', Spaced(ts[1..]));
        assert ts[0] + " " + Spaced(ts[1..]) == ts[0] + rest;
        assert ts == [ts[0]] + ts[1..];
      }
    }
  }

  // ---------------------------------------------------------------- lines

  datatype Scan = NoLine | LineTooLong | Scanned(line: string, rest: string)

  /** bufio.Scanner with ScanLines and a buffer of max + 1 bytes: the line break and one CR before it go. */
  function ScanLine(s: string, max: nat): (r: Scan)
    ensures r.Scanned? ==> |r.rest| < |s|
  {
    if s == "" then NoLine
    else
      var cut := Cut(s, '\n');
      var raw := if cut.Some? then cut.value.0 else s;
      if |raw| > max then LineTooLong else Scanned(DropCr(raw), if cut.Some? then cut.value.1 else "")
  }

  function DropCr(s: string): string {
    if s != "" && s[|s| - 1] == '\r' then s[..|s| - 1] else s
  }

  lemma ScanFirst(line: string, rest: string, max: nat)
    requires '\n' !in line && |line| <= max && (line == "" || line[|line| - 1] != '\r')
    ensures ScanLine(line + "\n" + rest, max) == Scanned(line, rest)
  {
    assert line + "\n" + rest == line + ['\n'] + rest;
    CutFirst(line, '\n', rest);
  }

  /** strings.TrimRight over a set of bytes, and TrimSpace for ASCII. */
  function TrimRight(space: char -> bool, s: string): (t: string)
    ensures t <= s
  {
    if s != "" && space(s[|s| - 1]) then TrimRight(space, s[..|s| - 1]) else s
  }

  function TrimLeft(space: char -> bool, s: string): (t: string) {
    if s != "" && space(s[0]) then TrimLeft(space, s[1..]) else s
  }

  function TrimSpace(s: string): string {
    TrimLeft(IsSpace, TrimRight(IsSpace, s))
  }
}
