/** The refs a store yields, their names' validity, and their order on the wire. */
module Refs {
  import opened Options
  import opened Bytes
  import opened WireText

  /** peeled is empty when the ref does not peel: not a tag, or a zero object id. */
  datatype RefEntry = RefEntry(name: string, oid: string, peeled: string)

  /** oid is all zeros and symref empty when absent; unborn marks a symbolic HEAD whose target does not exist. */
  datatype Head = Head(oid: string, symref: string, unborn: bool)

  /** A ref as the client decodes it. */
  datatype RawRef = RawRef(oid: string, name: string, peeled: string, symref: string, unborn: bool)

  datatype Capability = Capability(name: string, value: string)

  // ---------------------------------------------------------------- names

  predicate Forbidden(c: char) {
    c < ' ' || c == '\U{7f}' || c in " ~^:?[\\*"
  }

  /** c[i] ends one of the pairs ".." and "@{". */
  predicate ClosesPair(c: string, i: nat)
    requires i < |c|
  {
    i > 0 && ((c[i - 1] == '.' && c[i] == '.') || (c[i - 1] == '@' && c[i] == '{'))
  }

  /** checkRefnameComponent's rules, as git's check-ref-format documents them. */
  ghost predicate GoodComponent(c: string) {
    && c != "" && c[0] != '.' && !HasSuffix(c, ".lock")
    && (forall i :: 0 <= i < |c| ==> !Forbidden(c[i]) && c[i] != '/')
    && (forall i: nat :: i < |c| ==> !ClosesPair(c, i))
  }

  /** The pieces between slashes. */
  function Components(name: string): (cs: seq<string>)
    ensures cs != []
    decreases |name|
  {
    match Cut(name, '/')
    case None => [name]
    case Some(p) => [p.0] + Components(p.1)
  }

  ghost predicate GoodName(name: string) {
    && name != "" && name != "@" && name[|name| - 1] != '.'
    && AllGood(Components(name))
  }

  ghost predicate AllGood(cs: seq<string>) {
    forall i :: 0 <= i < |cs| ==> GoodComponent(cs[i])
  }

  /** checkRefnameComponent. */
  method CheckComponent(c: string) returns (ok: bool)
    ensures ok <==> GoodComponent(c)
  {
    if c == "" {
      return false;
    }
    if c[0] == '.' {
      return false;
    }
    if |c| >= 5 && c[|c| - 5..] == ".lock" {
      return false;
    }
    var last := '\0';
    for i := 0 to |c|
      invariant last == if i == 0 then '\0' else c[i - 1]
      invariant forall k :: 0 <= k < i ==> !Forbidden(c[k]) && c[k] != '/'
      invariant forall k: nat :: k < i ==> !ClosesPair(c, k)
    {
      var ch := c[i];
      assert ClosesPair(c, i) <==> (ch == '.' && last == '.') || (ch == '{' && last == '@');
      if Forbidden(ch) || ch == '/' {
        return false;
      }
      if ch == '.' && last == '.' {
        return false;
      }
      if ch == '{' && last == '@' {
        return false;
      }
      last := ch;
    }
    return true;
  }

  /** checkRefnameFormat accepts exactly the good names. */
  method CheckName(name: string) returns (ok: bool)
    ensures ok <==> GoodName(name)
  {
    hide GoodComponent, Components;
    if name == "" || name == "@" {
      return false;
    }
    if name[|name| - 1] == '.' {
      return false;
    }
    var start := 0;
    ghost var done: seq<string> := [];
    assert name[0..] == name;
    for i := 0 to |name|
      invariant start <= i && '/' !in name[start..i]
      invariant AllGood(done) && Components(name) == done + Components(name[start..])
    {
      if name[i] == '/' {
        NextComponent(name, start, i);
        var good := CheckComponent(name[start..i]);
        if !good {
          assert Components(name)[|done|] == name[start..i];
          return false;
        }
        done := done + [name[start..i]];
        start := i + 1;
      }
    }
    LastComponent(name[start..]);
    ok := CheckComponent(name[start..]);
    assert Components(name)[|done|] == name[start..];
  }

  lemma LastComponent(s: string)
    requires '/' !in s
    ensures Components(s) == [s]
  {
  }

  lemma NextComponent(name: string, start: nat, i: nat)
    requires start <= i < |name| && '/' !in name[start..i] && name[i] == '/'
    ensures Components(name[start..]) == [name[start..i]] + Components(name[i + 1..])
  {
    assert name[start..] == name[start..i] + ['/'] + name[i + 1..];
    CutFirst(name[start..i], '/', name[i + 1..]);
  }

  /** The bytes a component may hold behind its first: no control, no DEL, no space, none of seven signs, no slash. */
  lemma {:induction false} AllowedBytes(c: char)
    ensures GoodComponent(['a', c]) <==> c as int > 0x20 && c as int != 0x7f && c !in "~^:?[\\*/"
  {
    var s := ['a', c];
    assert s[0] == 'a' && s[1] == c;
    assert !ClosesPair(s, 0) && !ClosesPair(s, 1);
    assert !Forbidden('a');
    if c as int > 0x20 && c as int != 0x7f && c !in "~^:?[\\*/" {
      assert c !in " ~^:?[\\*";
      assert forall i :: 0 <= i < 2 ==> !Forbidden(s[i]) && s[i] != '/';
    } else {
      assert Forbidden(s[1]) || s[1] == '/';
    }
  }

  /** Names git refuses, whatever stands around: two dots, "@{", a leading dot, ".lock", a last dot, a bare "@". */
  lemma {:induction false} RefusedNames(x: string, y: string)
    ensures !GoodComponent(x + ".." + y) && !GoodComponent(x + "@{" + y)
    ensures !GoodComponent("." + x) && !GoodComponent(x + ".lock") && !GoodComponent("")
    ensures !GoodName(x + ".") && !GoodName("@") && !GoodName("")
  {
    var dots, brace, lock, dot := x + ".." + y, x + "@{" + y, x + ".lock", x + ".";
    assert dots[|x|] == '.' && dots[|x| + 1] == '.' && ClosesPair(dots, |x| + 1);
    assert brace[|x|] == '@' && brace[|x| + 1] == '{' && ClosesPair(brace, |x| + 1);
    assert lock[|x|..] == ".lock";
    assert dot[|dot| - 1] == '.';
  }

  /** What the wire parsers need of a name, and what every good name gives them. */
  ghost predicate PlainName(name: string) {
    name != "" && forall i :: 0 <= i < |name| ==>
      name[i] != '\0' && name[i] != '^' && name[i] != ':' && !IsSpace(name[i])
  }

  lemma {:induction false} GoodNameIsPlain(name: string)
    requires GoodName(name)
    ensures PlainName(name)
  {
    ComponentsPlain(name);
  }

  lemma {:induction false} ComponentsPlain(name: string)
    requires AllGood(Components(name))
    ensures forall i :: 0 <= i < |name| ==> name[i] != '\0' && name[i] != '^' && name[i] != ':' && !IsSpace(name[i])
    decreases |name|
  {
    var cs := Components(name);
    assert GoodComponent(cs[0]);
    match Cut(name, '/')
    case None =>
    case Some(p) =>
      assert forall i :: 0 <= i < |cs| - 1 ==> cs[i + 1] == Components(p.1)[i];
      ComponentsPlain(p.1);
  }

  // ---------------------------------------------------------------- object ids

  predicate IsHexDigit(c: char) {
    '0' <= c <= '9' || 'a' <= c <= 'f'
  }

  /** Lower-case hex, as AppendHex writes it. */
  ghost predicate IsOid(s: string) {
    s != "" && forall i :: 0 <= i < |s| ==> IsHexDigit(s[i])
  }

  /** A ref the wire can carry. */
  ghost predicate GoodRef(r: RefEntry) {
    PlainName(r.name) && IsOid(r.oid) && (r.peeled == "" || IsOid(r.peeled))
  }

  predicate IsAnyHex(c: char) {
    IsHexDigit(c) || 'A' <= c <= 'F'
  }

  /** n hex digits of either case. */
  predicate ParsesAsId(s: string, n: nat) {
    |s| == n && forall i :: 0 <= i < |s| ==> IsAnyHex(s[i])
  }

  /** ParseHexAs, which folds the case. */
  function ParseHex(s: string, n: nat): Option<string> {
    if ParsesAsId(s, n) then
      Some(seq(|s|, i requires 0 <= i < |s| => if 'A' <= s[i] <= 'F' then (s[i] as int + 32) as char else s[i]))
    else None
  }

  lemma HexParses(s: string, n: nat)
    requires IsOid(s) && |s| == n
    ensures ParseHex(s, n) == Some(s)
  {
    assert ParseHex(s, n).value == s;
  }

  /** n digits, capitals folded, and nothing else is an id. */
  lemma {:induction false} HexExactly(s: string, n: nat, id: string)
    ensures ParseHex(s, n) == Some(id) <==>
      && |s| == n == |id|
      && forall i :: 0 <= i < n ==>
          || ('0' <= s[i] <= '9' && id[i] == s[i])
          || ('a' <= s[i] <= 'f' && id[i] == s[i])
          || ('A' <= s[i] <= 'F' && id[i] as int == s[i] as int + 32)
  {
    if ParsesAsId(s, n) && |id| == n && ParseHex(s, n) != Some(id) {
      assert ParseHex(s, n).value != id;
      var i :| 0 <= i < n && ParseHex(s, n).value[i] != id[i];
      assert IsAnyHex(s[i]);
    }
  }

  /** IsZero, and isAllZero on the client. */
  predicate IsZero(s: string) {
    s != "" && forall i :: 0 <= i < |s| ==> s[i] == '0'
  }

  /** An id of n zeros. */
  function Zeros(n: nat): (s: string)
    ensures |s| == n && forall i :: 0 <= i < n ==> s[i] == '0'
  {
    seq(n, _ => '0')
  }

  // ---------------------------------------------------------------- order

  ghost function Codes(s: string): seq<int> {
    seq(|s|, i requires 0 <= i < |s| => s[i] as int)
  }

  /** cmp.Compare on strings: byte order. */
  function Before(a: string, b: string): (r: bool)
    ensures r <==> Less(Codes(a), Codes(b))
  {
    if b == [] then false
    else if a == [] then true
    else if a[0] != b[0] then a[0] < b[0]
    else
      assert Codes(a)[1..] == Codes(a[1..]) && Codes(b)[1..] == Codes(b[1..]);
      Before(a[1..], b[1..])
  }

  ghost predicate NameOrder(refs: seq<RefEntry>) {
    forall i, j :: 0 <= i < j < |refs| ==> !Before(refs[j].name, refs[i].name)
  }

  lemma NotBeforeTransitive(a: string, b: string, c: string)
    requires !Before(b, a) && !Before(c, b)
    ensures !Before(c, a)
  {
    hide Less;
    LessTotal(Codes(a), Codes(b));
    LessTotal(Codes(b), Codes(c));
    if Before(c, a) {
      if Less(Codes(a), Codes(b)) {
        LessTransitive(Codes(c), Codes(a), Codes(b));
      }
    }
  }

  /** The same refs, each as often, in byte order of their names. */
  ghost predicate Sorts(sorted: seq<RefEntry>, refs: seq<RefEntry>) {
    multiset(sorted) == multiset(refs) && NameOrder(sorted)
  }

  /** The sort of collectV0Refs and collectLSRefsRefs. */
  method SortByName(refs: seq<RefEntry>) returns (sorted: seq<RefEntry>)
    ensures Sorts(sorted, refs)
  {
    hide Before, NameOrder;
    sorted := [];
    assert NameOrder([]) by { EmptyOrder(); }
    for i := 0 to |refs|
      invariant multiset(sorted) == multiset(refs[..i]) && NameOrder(sorted)
    {
      var k := 0;
      while k < |sorted| && !Before(refs[i].name, sorted[k].name)
        invariant k <= |sorted|
        invariant forall j :: 0 <= j < k ==> !Before(refs[i].name, sorted[j].name)
      {
        k := k + 1;
      }
      InsertKeepsOrder(sorted, refs[i], k);
      assert refs[..i + 1] == refs[..i] + [refs[i]];
      InsertCounts(sorted, refs[i], k);
      sorted := sorted[..k] + [refs[i]] + sorted[k..];
    }
    assert refs[..|refs|] == refs;
  }

  lemma InsertCounts(sorted: seq<RefEntry>, r: RefEntry, k: nat)
    requires k <= |sorted|
    ensures multiset(sorted[..k] + [r] + sorted[k..]) == multiset(sorted) + multiset{r}
  {
    assert sorted == sorted[..k] + sorted[k..];
  }

  lemma EmptyOrder()
    ensures NameOrder([])
  {
  }

  lemma InsertKeepsOrder(sorted: seq<RefEntry>, r: RefEntry, k: nat)
    requires NameOrder(sorted) && k <= |sorted|
    requires forall j :: 0 <= j < k ==> !Before(r.name, sorted[j].name)
    requires k < |sorted| ==> Before(r.name, sorted[k].name)
    ensures NameOrder(sorted[..k] + [r] + sorted[k..])
  {
    hide Before, Less;
    forall j | k <= j < |sorted|
      ensures !Before(sorted[j].name, r.name)
    {
      LessTotal(Codes(r.name), Codes(sorted[k].name));
      if j > k {
        NotBeforeTransitive(r.name, sorted[k].name, sorted[j].name);
      }
    }
  }
}
