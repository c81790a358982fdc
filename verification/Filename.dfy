/** The names of backup files, from src/misc.c: the name of a database with its
    odd characters escaped, and back. */
module Filename {
  import opened Options

  const DBNAME_LEN: nat := 32
  const MAXPATHLEN: nat := 4096

  /** A C character. */
  type cchar = c: char | c as int < 0x100 witness 'a'

  /** `isprint` in the C locale. */
  predicate IsPrint(c: cchar) { 0x20 <= c as int <= 0x7e }

  predicate Weird(c: cchar) { !IsPrint(c) || c == '/' || c == '%' }

  /** `%02X`, one digit of it. */
  function HexDigit(n: int): cchar
    requires 0 <= n < 16
  {
    "0123456789ABCDEF"[n]
  }

  /** `hex2int`: -1 for what is no hexadecimal digit. */
  function Hex2Int(c: cchar): int {
    if '0' <= c <= '9' then c as int - '0' as int
    else if 'a' <= c <= 'f' then c as int - 'a' as int + 10
    else if 'A' <= c <= 'F' then c as int - 'A' as int + 10
    else -1
  }

  function Escape(c: cchar): seq<cchar> {
    if Weird(c) then ['%', HexDigit(c as int / 16), HexDigit(c as int % 16)] else [c]
  }

  function Escaped(name: seq<cchar>): (r: seq<cchar>)
    ensures |name| <= |r| <= 3 * |name|
  {
    if name == [] then [] else Escape(name[0]) + Escaped(name[1..])
  }

  /** The string in a buffer: what comes before the first NUL. */
  function CString(buf: seq<cchar>): (r: seq<cchar>)
    ensures |r| <= |buf| && r == buf[..|r|] && '\0' !in r
    ensures |r| < |buf| ==> buf[|r|] == '\0'
  {
    if buf == [] || buf[0] == '\0' then [] else [buf[0]] + CString(buf[1..])
  }

  /** `strrchr`: where `c` is for the last time in `s`, or -1. */
  function LastOf(s: seq<cchar>, c: cchar): (r: int)
    ensures -1 <= r < |s|
    ensures r >= 0 ==> s[r] == c
    ensures forall i :: r < i < |s| ==> s[i] != c
  {
    if s == [] then -1 else if s[|s| - 1] == c then |s| - 1 else LastOf(s[..|s| - 1], c)
  }

  function Suffix(rsrc: bool): seq<cchar> { if rsrc then ".prc" else ".pdb" }

  function ToLower(c: cchar): cchar {
    if 'A' <= c <= 'Z' then (c as int + 32) as char else c
  }

  /** `strcasecmp(ext, ".prc") == 0 || strcasecmp(ext, ".pdb") == 0`. */
  predicate IsExtension(ext: seq<cchar>) {
    |ext| == 4 && ext[0] == '.' && ToLower(ext[1]) == 'p'
    && ((ToLower(ext[2]) == 'r' && ToLower(ext[3]) == 'c') || (ToLower(ext[2]) == 'd' && ToLower(ext[3]) == 'b'))
  }

  /** The characters that `s` stands for, up to `room` of them; `None` if an
      escape before that is none. (After `s` comes a dot, which is no hexadecimal digit.) */
  function Unescaped(s: seq<cchar>, room: nat): Option<seq<cchar>> {
    if s == [] || room == 0 then Some([])
    else if s[0] != '%' then
      match Unescaped(s[1..], room - 1)
      case None => None
      case Some(t) => Some([s[0]] + t)
    else if |s| < 3 || Hex2Int(s[1]) < 0 || Hex2Int(s[2]) < 0 then None
    else
      match Unescaped(s[3..], room - 1)
      case None => None
      case Some(t) => Some([(Hex2Int(s[1]) * 16 + Hex2Int(s[2])) as char] + t)
  }

  /** The name of the database that a file is the backup of, if it is one. */
  function NameOf(fname: seq<cchar>): Option<seq<cchar>> {
    var base := fname[LastOf(fname, '/') + 1..];
    var dot := LastOf(base, '.');
    if dot < 0 || !IsExtension(base[dot..]) then None
    else
      match Unescaped(base[..dot], DBNAME_LEN)
      case None => None
      case Some(t) => Some(CString(t))
  }

  /** The whole path of a backup file, however long. */
  function FullPath(dirname: seq<cchar>, name: seq<cchar>, suffix: seq<cchar>): seq<cchar> {
    dirname + "/" + Escaped(name) + suffix
  }

  function Concat(strs: seq<seq<cchar>>): seq<cchar> {
    if strs == [] then [] else Concat(strs[..|strs| - 1]) + strs[|strs| - 1]
  }

  function Cut(s: seq<cchar>, n: nat): seq<cchar> { if |s| <= n then s else s[..n] }

  // ----- The functions -----------------------------------------------------------

  /** `mkfname`: the strings one after the other, cut off at `MAXPATHLEN` characters. */
  method MkFname(strs: seq<seq<cchar>>) returns (path: seq<cchar>)
    ensures path == Cut(Concat(strs), MAXPATHLEN)
  {
    var buf := new cchar[MAXPATHLEN + 1](_ => '\0');
    var len := 0;
    var next := 0;
    while next < |strs|
      invariant 0 <= next <= |strs| && 0 <= len < MAXPATHLEN
      invariant buf[..len] == Concat(strs[..next])
    {
      var str := strs[next];
      assert strs[..next + 1][..next] == strs[..next];
      ghost var done := Concat(strs[..next]);
      var i := 0;
      while i < |str|
        invariant 0 <= i <= |str| && len < MAXPATHLEN
        invariant buf[..len] == done + str[..i]
      {
        buf[len] := str[i];
        len := len + 1;
        assert str[..i + 1] == str[..i] + [str[i]];
        i := i + 1;
        if len >= MAXPATHLEN {
          CutHere(strs, next, i, buf[..len]);
          return buf[..len];
        }
      }
      assert str[..i] == str;
      next := next + 1;
    }
    assert strs[..next] == strs;
    path := buf[..len];
  }

  /** The strings before number `next`, and the first `i` characters of that one, fill a path. */
  lemma CutHere(strs: seq<seq<cchar>>, next: nat, i: nat, s: seq<cchar>)
    requires next < |strs| && i <= |strs[next]| && s == Concat(strs[..next]) + strs[next][..i] && |s| == MAXPATHLEN
    ensures s == Cut(Concat(strs), MAXPATHLEN)
  {
    var done, str := Concat(strs[..next]), strs[next];
    assert strs[..next + 1][..next] == strs[..next];
    assert Concat(strs[..next + 1]) == done + str;
    assert s == (done + str)[..|s|];
    ConcatStarts(strs, next + 1);
    hide Concat;
  }

  lemma {:induction false} ConcatStarts(strs: seq<seq<cchar>>, n: nat)
    requires n <= |strs|
    ensures Concat(strs[..n]) <= Concat(strs)
    decreases |strs|
  {
    if n == |strs| {
      assert strs[..n] == strs;
    } else {
      var init := strs[..|strs| - 1];
      assert init[..n] == strs[..n];
      ConcatStarts(init, n);
    }
  }

  lemma {:induction false} EscapedOneMore(name: seq<cchar>, c: cchar)
    ensures Escaped(name + [c]) == Escaped(name) + Escape(c)
    decreases |name|
  {
    hide Escape;
    if name == [] {
      assert [] + [c] == [c] && [c][1..] == [];
    } else {
      EscapedOneMore(name[1..], c);
      assert (name + [c])[1..] == name[1..] + [c];
    }
  }

  /** The escaping loop of `mkpdbname`, in a buffer of three times the longest name. */
  method EscapeName(name: seq<cchar>) returns (escaped: seq<cchar>)
    requires |name| == DBNAME_LEN
    ensures escaped == Escaped(CString(name))
  {
    hide Escape, Escaped;
    var namebuf := new cchar[DBNAME_LEN * 3 + 1](_ => '\0');
    var nptr := 0;
    var i := 0;
    EscapedNothing();
    while i < DBNAME_LEN && name[i] != '\0'
      invariant 0 <= i <= DBNAME_LEN && 0 <= nptr <= 3 * i && '\0' !in name[..i]
      invariant namebuf[..nptr] == Escaped(name[..i])
    {
      EscapedOneMore(name[..i], name[i]);
      assert name[..i + 1] == name[..i] + [name[i]];
      EscapeShape(name[i]);
      if !IsPrint(name[i]) || name[i] == '/' || name[i] == '%' {
        namebuf[nptr], namebuf[nptr + 1], namebuf[nptr + 2] := '%', HexDigit(name[i] as int / 16), HexDigit(name[i] as int % 16);
        nptr := nptr + 3;
      } else {
        namebuf[nptr] := name[i];
        nptr := nptr + 1;
      }
      i := i + 1;
    }
    BeforeNul(name, i);
    escaped := namebuf[..nptr];
  }

  lemma EscapedNothing()
    ensures Escaped([]) == []
  {
  }

  lemma EscapeShape(c: cchar)
    ensures Escape(c) == if Weird(c) then ['%', HexDigit(c as int / 16), HexDigit(c as int % 16)] else [c]
  {
  }

  lemma {:induction false} BeforeNul(buf: seq<cchar>, n: nat)
    requires n <= |buf| && '\0' !in buf[..n] && (n < |buf| ==> buf[n] == '\0')
    ensures CString(buf) == buf[..n]
    decreases n
  {
    if n > 0 {
      assert buf[0] in buf[..n] && buf[1..][..n - 1] == buf[..n][1..];
      BeforeNul(buf[1..], n - 1);
    }
  }

  /** `mkpdbname`. */
  method MkPdbName(dirname: seq<cchar>, name: seq<cchar>, rsrc: bool, addSuffix: bool) returns (path: seq<cchar>)
    requires |name| == DBNAME_LEN
    ensures path == Cut(FullPath(dirname, CString(name), if addSuffix then Suffix(rsrc) else []), MAXPATHLEN)
  {
    hide Escaped;
    var namebuf := EscapeName(name);
    var suffix: seq<cchar> := if addSuffix then if rsrc then ".prc" else ".pdb" else "";
    path := MkFname([dirname, "/", namebuf, suffix]);
    ConcatFour(dirname, "/", namebuf, suffix);
  }

  lemma ConcatFour(a: seq<cchar>, b: seq<cchar>, c: seq<cchar>, d: seq<cchar>)
    ensures Concat([a, b, c, d]) == a + b + c + d
  {
    assert [a, b, c, d][..3] == [a, b, c] && [a, b, c][..2] == [a, b] && [a, b][..1] == [a] && [a][..0] == [];
    assert Concat([a]) == Concat([]) + a == a;
    assert Concat([a, b]) == Concat([a]) + b;
    assert Concat([a, b, c]) == Concat([a, b]) + c;
  }

  /** The character at `at`, which `dot` comes after, or the one escaped there. */
  method NextChar(base: seq<cchar>, dot: nat, at: nat, ghost room: nat) returns (ok: bool, c: cchar, next: nat)
    requires at < dot < |base| && base[dot] == '.' && room > 0
    ensures ok ==> at < next <= dot
    ensures Unescaped(base[..dot][at..], room)
            == if ok then Grow([c], Unescaped(base[..dot][next..], room - 1)) else None
  {
    ghost var rest := base[..dot][at..];
    UnescapedStep(rest, room);
    hide Unescaped, Grow;
    if base[at] != '%' {
      assert rest[1..] == base[..dot][at + 1..];
      return true, base[at], at + 1;
    }
    var first := Hex2Int(base[at + 1]);
    if first < 0 {
      return false, '%', at;
    }
    var second := Hex2Int(base[at + 2]);
    if second < 0 {
      return false, '%', at;
    }
    assert rest[3..] == base[..dot][at + 3..];
    return true, (first * 16 + second) as char, at + 3;
  }

  /** The unescaping loop, up to the dot at `dot`. */
  method Unescape(dbname: array<cchar>, base: seq<cchar>, dot: nat) returns (ok: bool)
    requires dbname.Length == DBNAME_LEN + 1 && (forall j :: 0 <= j < dbname.Length ==> dbname[j] == '\0')
    requires dot < |base| && base[dot] == '.'
    modifies dbname
    ensures match Unescaped(base[..dot], DBNAME_LEN)
            case None => !ok
            case Some(t) => ok && CString(dbname[..]) == CString(t)
  {
    hide Unescaped, CString, Grow;
    ghost var body := base[..dot];
    var at: nat := 0;
    var i: nat := 0;
    assert body[0..] == body;
    Grown([], Unescaped(body, DBNAME_LEN));
    while i < DBNAME_LEN && at != dot
      invariant 0 <= i <= DBNAME_LEN && 0 <= at <= dot
      invariant Unescaped(body, DBNAME_LEN) == Grow(dbname[..i], Unescaped(body[at..], DBNAME_LEN - i))
      invariant forall j :: i <= j < dbname.Length ==> dbname[j] == '\0'
    {
      ghost var before := dbname[..i];
      var c;
      ok, c, at := NextChar(base, dot, at, DBNAME_LEN - i);
      if !ok {
        GrowNone(before);
        return;
      }
      GrownOnce(before, c, Unescaped(body[at..], DBNAME_LEN - i - 1));
      dbname[i] := c;
      i := i + 1;
      assert dbname[..i] == before + [c];
    }
    UnescapedEnd(body[at..], DBNAME_LEN - i);
    GrownByNothing(dbname[..i]);
    StringIn(dbname[..], i);
    assert dbname[..][..i] == dbname[..i];
    ok := true;
  }

  lemma NameOfIs(fname: seq<cchar>)
    ensures var base := fname[LastOf(fname, '/') + 1..];
            var dot := LastOf(base, '.');
            NameOf(fname) == if dot < 0 || !IsExtension(base[dot..]) then None
                             else match Unescaped(base[..dot], DBNAME_LEN) case None => None case Some(t) => Some(CString(t))
  {
  }

  /** `fname2dbname`, over its buffer; null is `None`. */
  method Fname2Dbname(fname: seq<cchar>) returns (r: Option<seq<cchar>>)
    ensures r == NameOf(fname)
  {
    NameOfIs(fname);
    hide NameOf, Unescaped, CString, IsExtension, LastOf;
    var dbname := new cchar[DBNAME_LEN + 1](_ => '\0');
    var slash := LastOf(fname, '/');
    var base := fname[slash + 1..];
    var dot := LastOf(base, '.');
    if dot < 0 {
      return None;
    }
    var isExtension := IsExtension(base[dot..]);
    if !isExtension {
      return None;
    }
    var ok := Unescape(dbname, base, dot);
    r := if ok then Some(CString(dbname[..])) else None;
  }

  function Grow(front: seq<cchar>, rest: Option<seq<cchar>>): Option<seq<cchar>> {
    match rest
    case None => None
    case Some(t) => Some(front + t)
  }

  lemma Grown(front: seq<cchar>, rest: Option<seq<cchar>>)
    ensures front == [] ==> Grow(front, rest) == rest
  {
    if rest.Some? && front == [] { assert front + rest.value == rest.value; }
  }

  lemma GrownByNothing(front: seq<cchar>)
    ensures Grow(front, Some([])) == Some(front)
  {
    assert front + [] == front;
  }

  lemma GrowNone(front: seq<cchar>)
    ensures Grow(front, None) == None
  {
  }

  lemma GrownOnce(front: seq<cchar>, c: cchar, rest: Option<seq<cchar>>)
    ensures Grow(front, Grow([c], rest)) == Grow(front + [c], rest)
  {
    if rest.Some? { assert front + ([c] + rest.value) == front + [c] + rest.value; }
  }

  lemma UnescapedStep(s: seq<cchar>, room: nat)
    requires s != [] && room > 0
    ensures s[0] != '%' ==> Unescaped(s, room) == Grow([s[0]], Unescaped(s[1..], room - 1))
    ensures s[0] == '%' && (|s| < 3 || Hex2Int(s[1]) < 0 || Hex2Int(s[2]) < 0) ==> Unescaped(s, room) == None
    ensures s[0] == '%' && |s| >= 3 && Hex2Int(s[1]) >= 0 && Hex2Int(s[2]) >= 0 ==>
              Unescaped(s, room) == Grow([(Hex2Int(s[1]) * 16 + Hex2Int(s[2])) as char], Unescaped(s[3..], room - 1))
  {
  }

  lemma UnescapedEnd(s: seq<cchar>, room: nat)
    requires s == [] || room == 0
    ensures Unescaped(s, room) == Some([])
  {
  }

  /** Zeros after the end of a string do not belong to it. */
  lemma StringIn(buf: seq<cchar>, n: nat)
    requires n < |buf| && forall j :: n <= j < |buf| ==> buf[j] == '\0'
    ensures CString(buf) == CString(buf[..n])
  {
    var s := CString(buf[..n]);
    assert forall c :: c in buf[..|s|] ==> c in s;
    BeforeNul(buf, |s|);
  }

  // ----- There and back ------------------------------------------------------------

  lemma HexBack(c: cchar)
    ensures Hex2Int(HexDigit(c as int / 16)) == c as int / 16 && Hex2Int(HexDigit(c as int % 16)) == c as int % 16
  {
    HexDigitBack(c as int / 16);
    HexDigitBack(c as int % 16);
  }

  lemma HexDigitBack(n: int)
    requires 0 <= n < 16
    ensures Hex2Int(HexDigit(n)) == n && HexDigit(n) != '/'
  {
  }

  lemma {:induction false} UnescapedEscaped(name: seq<cchar>, room: nat)
    requires |name| <= room
    ensures Unescaped(Escaped(name), room) == Some(name)
    decreases |name|
  {
    if name == [] {
    } else {
      var c, rest := name[0], Escaped(name[1..]);
      UnescapedEscaped(name[1..], room - 1);
      HexBack(c);
      var s := Escape(c) + rest;
      assert s == Escaped(name) && [c] + name[1..] == name;
      hide Escaped, Unescaped, Hex2Int, HexDigit;
      assert s[|Escape(c)|..] == rest;
      UnescapedStep(s, room);
    }
  }

  lemma {:induction false} EscapedIsPlain(name: seq<cchar>)
    ensures '/' !in Escaped(name)
    decreases |name|
  {
    if name != [] {
      EscapedIsPlain(name[1..]);
      HexDigitBack(name[0] as int / 16);
      HexDigitBack(name[0] as int % 16);
      hide Escaped, HexDigit;
    }
  }

  lemma LastIs(s: seq<cchar>, c: cchar, k: nat)
    requires k < |s| && s[k] == c && forall i :: k < i < |s| ==> s[i] != c
    ensures LastOf(s, c) == k
  {
  }

  lemma BaseOfPath(dirname: seq<cchar>, e: seq<cchar>, rsrc: bool)
    requires '/' !in e
    ensures var path := dirname + "/" + e + Suffix(rsrc);
            LastOf(path, '/') == |dirname| && path[|dirname| + 1..] == e + Suffix(rsrc)
  {
    hide LastOf;
    var path := dirname + "/" + e + Suffix(rsrc);
    forall i | |dirname| < i < |path|
      ensures path[i] != '/'
    {
      if i <= |dirname| + |e| { assert path[i] == e[i - |dirname| - 1]; }
    }
    LastIs(path, '/', |dirname|);
  }

  lemma DotOfBase(e: seq<cchar>, rsrc: bool)
    ensures var base := e + Suffix(rsrc);
            LastOf(base, '.') == |e| && base[|e|..] == Suffix(rsrc) && base[..|e|] == e && IsExtension(Suffix(rsrc))
  {
    hide LastOf;
    LastIs(e + Suffix(rsrc), '.', |e|);
  }

  lemma FittingPath(dirname: seq<cchar>, name: seq<cchar>, rsrc: bool)
    requires |name| <= DBNAME_LEN && '\0' !in name
    requires |FullPath(dirname, name, Suffix(rsrc))| <= MAXPATHLEN
    ensures NameOf(Cut(FullPath(dirname, name, Suffix(rsrc)), MAXPATHLEN)) == Some(name)
  {
    EscapedIsPlain(name);
    UnescapedEscaped(name, DBNAME_LEN);
    BaseOfPath(dirname, Escaped(name), rsrc);
    DotOfBase(Escaped(name), rsrc);
    assert name[..|name|] == name;
    BeforeNul(name, |name|);
    NameOfIs(FullPath(dirname, name, Suffix(rsrc)));
    assert FullPath(dirname, name, Suffix(rsrc)) == dirname + "/" + Escaped(name) + Suffix(rsrc);
    assert Cut(FullPath(dirname, name, Suffix(rsrc)), MAXPATHLEN) == FullPath(dirname, name, Suffix(rsrc));
    hide *;
  }

  /** Of an escaped name that is cut off, less than the name comes back, or nothing. */
  lemma {:induction false} CutEscape(name: seq<cchar>, n: nat, room: nat)
    requires n < |Escaped(name)|
    ensures var t := Unescaped(Escaped(name)[..n], room);
            t.Some? ==> |t.value| < |name|
    decreases |name|
  {
    var e, esc, rest := Escaped(name)[..n], Escape(name[0]), Escaped(name[1..]);
    assert Escaped(name) == esc + rest;
    EscapeShape(name[0]);
    PrefixOfBoth(esc, rest, n);
    hide Escaped, Escape, Unescaped, Hex2Int, HexDigit;
    if n == 0 || room == 0 {
      UnescapedEnd(e, room);
    } else {
      UnescapedStep(e, room);
      if |esc| <= n {
        CutEscape(name[1..], n - |esc|, room - 1);
      }
    }
  }

  lemma PrefixOfBoth(x: seq<cchar>, y: seq<cchar>, n: nat)
    requires n <= |x + y|
    ensures var e := (x + y)[..n];
            && (n > 0 && x != [] ==> e[0] == x[0])
            && (n >= |x| ==> e[|x|..] == y[..n - |x|])
  {
  }

  /** A path that ends before the end of its suffix shows another name, or none. */
  lemma CutPath(dirname: seq<cchar>, name: seq<cchar>, rsrc: bool)
    requires |name| <= DBNAME_LEN && '\0' !in name && |dirname| < MAXPATHLEN
    requires |FullPath(dirname, name, Suffix(rsrc))| > MAXPATHLEN
    ensures NameOf(Cut(FullPath(dirname, name, Suffix(rsrc)), MAXPATHLEN)) != Some(name)
  {
    var e, suffix := Escaped(name), Suffix(rsrc);
    var n := MAXPATHLEN - |dirname| - 1;
    var path := dirname + ['/'] + (e + suffix)[..n];
    assert Cut(FullPath(dirname, name, suffix), MAXPATHLEN) == path;
    EscapedIsPlain(name);
    CutBase(dirname, e, suffix, n);
    NameOfIs(path);
    CutName(name, suffix, n);
    hide *;
  }

  /** Of the file name only `n` characters are left. */
  lemma CutName(name: seq<cchar>, suffix: seq<cchar>, n: nat)
    requires n < |Escaped(name)| + 4 && |suffix| == 4
    ensures var base := (Escaped(name) + suffix)[..n];
            var dot := LastOf(base, '.');
            dot >= 0 && IsExtension(base[dot..]) ==>
              var t := Unescaped(base[..dot], DBNAME_LEN);
              t.Some? ==> CString(t.value) != name
  {
    var e := Escaped(name);
    var base := (e + suffix)[..n];
    var dot := LastOf(base, '.');
    if dot >= 0 && IsExtension(base[dot..]) {
      ExtensionLength(base[dot..]);
      CutEscape(name, dot, DBNAME_LEN);
      hide Escaped, Unescaped, CString, LastOf, IsExtension;
      assert base[..dot] == e[..dot];
    }
  }

  lemma CutBase(dirname: seq<cchar>, e: seq<cchar>, suffix: seq<cchar>, n: nat)
    requires n <= |e + suffix| && '/' !in e && '/' !in suffix
    ensures var path := dirname + ['/'] + (e + suffix)[..n];
            LastOf(path, '/') == |dirname| && path[|dirname| + 1..] == (e + suffix)[..n]
  {
    hide LastOf;
    var path := dirname + ['/'] + (e + suffix)[..n];
    forall i | |dirname| < i < |path|
      ensures path[i] != '/'
    {
      assert path[i] == (e + suffix)[i - |dirname| - 1];
    }
    LastIs(path, '/', |dirname|);
  }

  lemma ExtensionLength(ext: seq<cchar>)
    requires IsExtension(ext)
    ensures |ext| == 4
  {
  }

  /** Escaping can be undone: the name of the file of a database, in any
      directory, says which database it is, exactly when the path is not cut off. */
  lemma NameOfPath(dirname: seq<cchar>, name: seq<cchar>, rsrc: bool)
    requires |name| <= DBNAME_LEN && '\0' !in name && |dirname| < MAXPATHLEN
    ensures NameOf(Cut(FullPath(dirname, name, Suffix(rsrc)), MAXPATHLEN)) == Some(name)
            <==> |FullPath(dirname, name, Suffix(rsrc))| <= MAXPATHLEN
  {
    hide *;
    if |FullPath(dirname, name, Suffix(rsrc))| <= MAXPATHLEN {
      FittingPath(dirname, name, rsrc);
    } else {
      CutPath(dirname, name, rsrc);
    }
  }

  /** In a directory whose name fills the buffer every database has the same file. */
  lemma DirectoryFillsPath(dirname: seq<cchar>, name1: seq<cchar>, name2: seq<cchar>, suffix1: seq<cchar>, suffix2: seq<cchar>)
    requires |dirname| >= MAXPATHLEN
    ensures Cut(FullPath(dirname, name1, suffix1), MAXPATHLEN) == Cut(FullPath(dirname, name2, suffix2), MAXPATHLEN)
  {
    hide Escaped;
    assert FullPath(dirname, name1, suffix1)[..MAXPATHLEN] == dirname[..MAXPATHLEN] == FullPath(dirname, name2, suffix2)[..MAXPATHLEN];
  }

  /** A buffer of three characters for each of a name's is enough, and any
      directory that leaves room for as many has only paths that fit. */
  lemma RoomForAll(dirname: seq<cchar>, name: seq<cchar>, rsrc: bool)
    requires |name| <= DBNAME_LEN && |dirname| + 1 + 3 * DBNAME_LEN + 4 <= MAXPATHLEN
    ensures |FullPath(dirname, name, Suffix(rsrc))| <= MAXPATHLEN
  {
  }

  /** No two databases of a directory have the same file. */
  lemma PathsDiffer(dirname: seq<cchar>, name1: seq<cchar>, rsrc1: bool, name2: seq<cchar>, rsrc2: bool)
    requires |name1| <= DBNAME_LEN && '\0' !in name1 && |FullPath(dirname, name1, Suffix(rsrc1))| <= MAXPATHLEN
    requires |name2| <= DBNAME_LEN && '\0' !in name2 && |FullPath(dirname, name2, Suffix(rsrc2))| <= MAXPATHLEN
    requires name1 != name2 || rsrc1 != rsrc2
    ensures FullPath(dirname, name1, Suffix(rsrc1)) != FullPath(dirname, name2, Suffix(rsrc2))
  {
    FittingPath(dirname, name1, rsrc1);
    FittingPath(dirname, name2, rsrc2);
    var p1, p2 := FullPath(dirname, name1, Suffix(rsrc1)), FullPath(dirname, name2, Suffix(rsrc2));
    assert p1[|p1| - 2] == Suffix(rsrc1)[2] && p2[|p2| - 2] == Suffix(rsrc2)[2];
  }

  lemma CutOfLong(s: seq<cchar>, t: seq<cchar>)
    ensures Cut(s + t, |s|) == s
  {
  }

  lemma NameBehindSlash(dirname: seq<cchar>, base: seq<cchar>)
    requires '/' !in base
    ensures NameOf(dirname + "/" + base) == NameOf(base)
  {
    var path := dirname + "/" + base;
    LastIs(path, '/', |dirname|);
    assert path[|dirname| + 1..] == base && base[0..] == base;
    NoneOf(base, '/');
    NameOfIs(path);
    NameOfIs(base);
    hide NameOf, LastOf, Unescaped, CString, IsExtension;
  }

  lemma NoneOf(s: seq<cchar>, c: cchar)
    requires c !in s
    ensures LastOf(s, c) == -1
  {
  }

  /** A path that is cut off behind the name is taken for the file that name would be. */
  lemma CutBehindName(dirname: seq<cchar>, name: seq<cchar>)
    requires |dirname| + 1 + |name| == MAXPATHLEN && '/' !in name && Escaped(name) == name
    ensures NameOf(Cut(FullPath(dirname, name, Suffix(false)), MAXPATHLEN)) == NameOf(name)
  {
    hide *;
    FullPathIs(dirname, name, Suffix(false));
    CutOfLong(dirname + "/" + name, Suffix(false));
    NameBehindSlash(dirname, name);
  }

  lemma FullPathIs(dirname: seq<cchar>, name: seq<cchar>, suffix: seq<cchar>)
    ensures FullPath(dirname, name, suffix) == dirname + "/" + Escaped(name) + suffix
  {
    hide Escaped;
  }

  /** Such a file can be taken for another database's: without its suffix, that
      of "a.pdb" is the file of "a". */
  lemma CutPathMisleads(dirname: seq<cchar>)
    requires |dirname| == MAXPATHLEN - 6 && '/' !in dirname
    ensures NameOf(Cut(FullPath(dirname, "a.pdb", Suffix(false)), MAXPATHLEN)) == Some("a")
  {
    assert Plain("a.pdb") && '/' !in "a.pdb" && |dirname| + 1 + |"a.pdb"| == MAXPATHLEN;
    hide *;
    EscapedForm("a.pdb");
    CutBehindName(dirname, "a.pdb");
    ShortName();
  }

  lemma ShortName()
    ensures NameOf("a.pdb") == Some("a")
  {
    hide NameOf, LastOf, Unescaped, CString;
    NameOfIs("a.pdb");
    NoneOf("a.pdb", '/');
    LastIs("a.pdb", '.', 1);
    assert "a.pdb"[0..] == "a.pdb" && "a.pdb"[1..] == ".pdb" && "a.pdb"[..1] == "a";
    UnescapedStep("a", DBNAME_LEN);
    UnescapedEnd("", DBNAME_LEN - 1);
    assert "a"[1..] == "";
    BeforeNul("a", 1);
    assert "a"[..1] == "a";
  }

  // ----- The characters -----------------------------------------------------------------

  predicate UpperHex(c: cchar) { '0' <= c <= '9' || 'A' <= c <= 'F' }

  function HexWorth(c: cchar): int {
    if c <= '9' then c as int - '0' as int else if c <= 'F' then c as int - 'A' as int + 10 else c as int - 'a' as int + 10
  }

  /** A character that can be printed, other than a slash and a percent sign,
      stands for itself; any other one becomes a percent sign and its two upper-case
      hexadecimal digits. */
  lemma EscapeForm(c: cchar)
    ensures var e := Escape(c);
            if ' ' <= c <= '~' && c != '/' && c != '%' then e == [c]
            else |e| == 3 && e[0] == '%' && UpperHex(e[1]) && UpperHex(e[2]) && c as int == 16 * HexWorth(e[1]) + HexWorth(e[2])
  {
    HexDigitForm(c as int / 16);
    HexDigitForm(c as int % 16);
    hide HexDigit;
  }

  lemma HexDigitForm(n: int)
    requires 0 <= n < 16
    ensures UpperHex(HexDigit(n)) && HexWorth(HexDigit(n)) == n
  {
  }

  lemma {:induction false} EscapedConcat(a: seq<cchar>, b: seq<cchar>)
    ensures Escaped(a + b) == Escaped(a) + Escaped(b)
  {
    if a == [] {
      assert a + b == b;
    } else {
      assert (a + b)[1..] == a[1..] + b;
      EscapedConcat(a[1..], b);
    }
  }

  predicate Fits(s: seq<cchar>) { forall c :: c in s ==> ' ' <= c <= '~' && c != '/' }

  predicate Plain(s: seq<cchar>) { forall c :: c in s ==> ' ' <= c <= '~' && c != '/' && c != '%' }

  lemma FitsConcat(s: seq<cchar>, t: seq<cchar>)
    ensures Fits(s + t) <==> Fits(s) && Fits(t)
    ensures Plain(s + t) <==> Plain(s) && Plain(t)
  {
    if Fits(s + t) || Plain(s + t) {
      assert forall c :: c in s ==> c in s + t;
      assert forall c :: c in t ==> c in s + t;
    }
  }

  lemma EscapeFits(c: cchar)
    ensures Fits(Escape(c)) && (Plain([c]) <==> Escape(c) == [c]) && (!Plain([c]) ==> |Escape(c)| == 3)
  {
    EscapeForm(c);
    hide Escape, HexWorth;
    var e := Escape(c);
    assert Plain([c]) <==> ' ' <= c <= '~' && c != '/' && c != '%' by { assert c in [c]; }
    assert |e| == 3 ==> e == [e[0], e[1], e[2]];
  }

  /** An escaped name can be the name of a file: it has nothing in it that cannot
      be printed, and no slash. It is the name itself exactly when that has neither,
      nor a percent sign. */
  lemma {:induction false} EscapedForm(name: seq<cchar>)
    ensures Fits(Escaped(name)) && (Escaped(name) == name <==> Plain(name))
  {
    if name != [] {
      var c, t := name[0], name[1..];
      EscapeFits(c);
      EscapedForm(t);
      assert Escaped(name) == Escape(c) + Escaped(t) && name == [c] + t;
      FitsConcat(Escape(c), Escaped(t));
      FitsConcat([c], t);
      EscapedLength(t);
      hide *;
      if Escape(c) == [c] {
        assert (Escape(c) + Escaped(t))[1..] == Escaped(t);
      }
    }
  }

  lemma EscapedLength(name: seq<cchar>)
    ensures |Escaped(name)| >= |name|
  {
  }

  /** Reading one character back: a percent sign takes two hexadecimal digits of
      either case with it, and anything else behind it is an error. */
  lemma UnescapeForm(c: cchar, rest: seq<cchar>, room: nat)
    ensures c != '%' ==> Unescaped([c] + rest, room + 1) == Grow([c], Unescaped(rest, room))
    ensures |rest| >= 2 ==>
              Unescaped(['%'] + rest, room + 1) ==
              if IsHex(rest[0]) && IsHex(rest[1]) then
                Grow([(16 * HexWorth(rest[0]) + HexWorth(rest[1])) as char], Unescaped(rest[2..], room))
              else None
    ensures |rest| < 2 ==> Unescaped(['%'] + rest, room + 1) == None
    ensures Unescaped(rest, 0) == Some([]) && Unescaped([], room) == Some([])
  {
    assert ([c] + rest)[1..] == rest;
    var s: seq<cchar> := ['%'] + rest;
    assert s[0] == '%' && |s| == |rest| + 1;
    if |rest| >= 2 {
      assert s[1] == rest[0] && s[2] == rest[1] && s[3..] == rest[2..];
      HexForm(rest[0]);
      HexForm(rest[1]);
      hide Hex2Int;
    }
  }

  predicate IsHex(c: cchar) { '0' <= c <= '9' || 'A' <= c <= 'F' || 'a' <= c <= 'f' }

  lemma HexForm(c: cchar)
    ensures Hex2Int(c) == if IsHex(c) then HexWorth(c) else -1
    ensures IsHex(c) ==> 0 <= HexWorth(c) < 16
  {
  }

  /** The names that are read back are those that end in ".prc" or ".pdb", in any case. */
  lemma ExtensionForm(ext: seq<cchar>)
    ensures IsExtension(ext) <==>
              && |ext| == 4 && ext[0] == '.' && (ext[1] == 'p' || ext[1] == 'P')
              && (|| ((ext[2] == 'r' || ext[2] == 'R') && (ext[3] == 'c' || ext[3] == 'C'))
                  || ((ext[2] == 'd' || ext[2] == 'D') && (ext[3] == 'b' || ext[3] == 'B')))
  {
    if |ext| == 4 {
      LowerForm(ext[1]);
      LowerForm(ext[2]);
      LowerForm(ext[3]);
      hide ToLower;
    }
  }

  lemma LowerForm(c: cchar)
    ensures ToLower(c) == 'p' <==> c == 'p' || c == 'P'
    ensures ToLower(c) == 'r' <==> c == 'r' || c == 'R'
    ensures ToLower(c) == 'c' <==> c == 'c' || c == 'C'
    ensures ToLower(c) == 'd' <==> c == 'd' || c == 'D'
    ensures ToLower(c) == 'b' <==> c == 'b' || c == 'B'
  {
  }

  /** A path: the directory, a slash, the escaped name and the suffix for its kind. */
  lemma PathForm(dirname: seq<cchar>, name: seq<cchar>, rsrc: bool)
    ensures FullPath(dirname, name, Suffix(rsrc)) == dirname + "/" + Escaped(name) + if rsrc then ".prc" else ".pdb"
  {
  }

  /** Which part of a path is the name: what is behind the last slash and before
      the last dot, of at most 32 characters; the extension must be the right one. */
  lemma NameParts(front: seq<cchar>, base: seq<cchar>, ext: seq<cchar>)
    requires (front == [] || front[|front| - 1] == '/') && '/' !in base && '/' !in ext
    requires ext != [] && ext[0] == '.' && '.' !in ext[1..]
    ensures NameOf(front + base + ext) == if !IsExtension(ext) then None
                                          else match Unescaped(base, 32) case None => None case Some(t) => Some(CString(t))
  {
    hide NameOf, LastOf, Unescaped, CString, IsExtension;
    var fname := front + base + ext;
    var tail := base + ext;
    BehindSlash(front, tail);
    assert fname == front + tail;
    assert fname[LastOf(fname, '/') + 1..] == tail;
    LastIs(tail, '.', |base|);
    assert tail[|base|..] == ext && tail[..|base|] == base;
    NameOfIs(fname);
  }

  /** Without a dot behind the last slash, there is none. */
  lemma NoName(front: seq<cchar>, base: seq<cchar>)
    requires (front == [] || front[|front| - 1] == '/') && '/' !in base && '.' !in base
    ensures NameOf(front + base) == None
  {
    hide NameOf, LastOf, Unescaped, CString, IsExtension;
    var fname := front + base;
    BehindSlash(front, base);
    assert fname[LastOf(fname, '/') + 1..] == base;
    NoneOf(base, '.');
    NameOfIs(fname);
  }

  lemma BehindSlash(front: seq<cchar>, base: seq<cchar>)
    requires (front == [] || front[|front| - 1] == '/') && '/' !in base
    ensures LastOf(front + base, '/') == |front| - 1
  {
    hide LastOf;
    var s := front + base;
    if front == [] {
      NoneOf(s, '/');
    } else {
      LastIs(s, '/', |front| - 1);
    }
  }
}
