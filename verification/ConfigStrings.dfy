/** Writing and reading back string values: sym_escape_string_value of
    tools/kconfig/symbol.c and the in-place unescaping in conf_set_sym_val of
    tools/kconfig/confdata.c. */
module ConfigStrings {
  import opened Basics

  predicate Special(c: char) {
    c == '"' || c == '\\'
  }

  predicate Plain(s: string) {
    forall i :: 0 <= i < |s| ==> !Special(s[i])
  }

  predicate NulFree(s: string) {
    forall i :: 0 <= i < |s| ==> s[i] != '\0'
  }

  // ----- escaping -----

  /** Every quote and backslash preceded by a backslash. */
  function Escape(s: string): string {
    if s == [] then [] else (if Special(s[0]) then ['\\', s[0]] else [s[0]]) + Escape(s[1..])
  }

  function Specials(s: string): nat {
    if s == [] then 0 else (if Special(s[0]) then 1 else 0) + Specials(s[1..])
  }

  lemma {:induction false} EscapeConcat(s: string, t: string)
    ensures Escape(s + t) == Escape(s) + Escape(t)
    ensures Specials(s + t) == Specials(s) + Specials(t)
  {
    if s == [] {
      assert s + t == t;
    } else {
      assert (s + t)[1..] == s[1..] + t;
      EscapeConcat(s[1..], t);
    }
  }

  lemma {:induction false} EscapePlain(s: string)
    requires Plain(s)
    ensures Escape(s) == s && Specials(s) == 0
  {
    if s != [] { EscapePlain(s[1..]); }
  }

  /** What is escaped at all: a string is written as it is if and only if neither quotes nor
      backslashes are in it. */
  lemma {:induction false} EscapedExactly(s: string)
    ensures Escape(s) == s <==> '"' !in s && '\\' !in s
    ensures |Escape(s)| == |s| <==> '"' !in s && '\\' !in s
    ensures |Escape(s)| >= |s|
  {
    if s != [] {
      EscapedExactly(s[1..]);
      assert s == [s[0]] + s[1..];
    }
  }

  lemma {:induction false} EscapeLength(s: string)
    ensures |Escape(s)| == |s| + Specials(s)
  {
    if s != [] { EscapeLength(s[1..]); }
  }

  lemma EscapeSpan(s: string, p: nat, l: nat)
    requires p + l <= |s| && Plain(s[p..p + l])
    ensures Escape(s[..p + l]) == Escape(s[..p]) + s[p..p + l]
    ensures Specials(s[..p + l]) == Specials(s[..p])
  {
    assert s[..p + l] == s[..p] + s[p..p + l];
    EscapeConcat(s[..p], s[p..p + l]);
    EscapePlain(s[p..p + l]);
  }

  lemma EscapeSpecial(s: string, p: nat)
    requires p < |s| && Special(s[p])
    ensures Escape(s[..p + 1]) == Escape(s[..p]) + ['\\', s[p]]
    ensures Specials(s[..p + 1]) == Specials(s[..p]) + 1
  {
    assert s[..p + 1] == s[..p] + [s[p]];
    EscapeConcat(s[..p], [s[p]]);
    assert Escape([s[p]]) == ['\\', s[p]] + Escape([]);
  }

  lemma Assoc(a: string, b: string, c: string)
    ensures a + b + c == a + (b + c)
  {
  }

  /** strcspn(s + p, "\"\\") */
  method SpanPlain(s: string, p: nat) returns (l: nat)
    requires p <= |s|
    ensures p + l <= |s| && Plain(s[p..p + l])
    ensures p + l < |s| ==> Special(s[p + l])
  {
    l := 0;
    while p + l < |s| && !Special(s[p + l])
      invariant p + l <= |s| && forall i :: p <= i < p + l ==> !Special(s[i])
    {
      l := l + 1;
    }
  }

  // The first loop: how many bytes to allocate.
  method EscapedSize(s: string) returns (size: nat)
    ensures size == |s| + 3 + Specials(s)
  {
    size := |s| + 2 + 1;
    var p := 0;
    while true
      invariant p <= |s| && size == |s| + 3 + Specials(s[..p])
      decreases |s| - p
    {
      var l := SpanPlain(s, p);
      EscapeSpan(s, p, l);
      p := p + l;
      if p == |s| {
        break;
      }
      EscapeSpecial(s, p);
      size, p := size + 1, p + 1;
    }
    assert s[..p] == s;
  }

  /** sym_escape_string_value. The size that is allocated, terminator included, is exactly
      what is used. */
  method EscapeString(s: string) returns (res: string, size: nat)
    ensures res == "\"" + Escape(s) + "\""
    ensures size == |res| + 1
  {
    size := EscapedSize(s);
    EscapeLength(s);
    res := "\"";
    var p := 0;
    while true
      invariant p <= |s| && res == "\"" + Escape(s[..p])
      decreases |s| - p
    {
      var l := SpanPlain(s, p);
      EscapeSpan(s, p, l);
      Assoc("\"", Escape(s[..p]), s[p..p + l]);
      res, p := res + s[p..p + l], p + l;
      if p == |s| {
        break;
      }
      EscapeSpecial(s, p);
      Assoc("\"", Escape(s[..p]), ['\\', s[p]]);
      res, p := res + ['\\', s[p]], p + 1;
    }
    assert s[..p] == s;
    res := res + "\"";
  }

  // ----- unescaping -----

  /** The text up to the closing quote, None if there is none. A backslash makes the
      character after it an ordinary one. */
  function Unescape(t: string): Option<string> {
    if t == [] then None
    else if t[0] == '"' then Some([])
    else if t[0] == '\\' then
      if |t| == 1 then None else Prepend([t[1]], Unescape(t[2..]))
    else Prepend([t[0]], Unescape(t[1..]))
  }

  function Prepend(s: string, o: Option<string>): Option<string> {
    if o.None? then None else Some(s + o.value)
  }

  lemma PrependConcat(s: string, t: string, o: Option<string>)
    ensures Prepend(s, Prepend(t, o)) == Prepend(s + t, o)
  {
    if o.Some? { assert s + (t + o.value) == s + t + o.value; }
  }

  lemma {:induction false} UnescapePlain(s: string, t: string)
    requires Plain(s)
    ensures Unescape(s + t) == Prepend(s, Unescape(t))
  {
    if s == [] {
      assert s + t == t;
      if Unescape(t).Some? { assert [] + Unescape(t).value == Unescape(t).value; }
    } else {
      assert (s + t)[1..] == s[1..] + t;
      UnescapePlain(s[1..], t);
      PrependConcat([s[0]], s[1..], Unescape(t));
      assert [s[0]] + s[1..] == s;
    }
  }

  /** Reading undoes writing: whatever follows the closing quote, the original text comes
      back. */
  lemma {:induction false} UnescapeEscape(s: string, rest: string)
    ensures Unescape(Escape(s) + "\"" + rest) == Some(s)
  {
    if s == [] {
      assert Escape(s) + "\"" + rest == "\"" + rest;
    } else {
      UnescapeEscape(s[1..], rest);
      var tail := Escape(s[1..]) + "\"" + rest;
      assert [s[0]] + s[1..] == s;
      if Special(s[0]) {
        assert Escape(s) + "\"" + rest == ['\\', s[0]] + tail;
        assert (['\\', s[0]] + tail)[2..] == tail;
      } else {
        assert Escape(s) + "\"" + rest == [s[0]] + tail;
        assert ([s[0]] + tail)[1..] == tail;
      }
    }
  }

  /** The characters w stand for the text v: each for itself, or behind a backslash. */
  predicate StandsFor(w: string, v: string) {
    if w == [] then v == []
    else if w[0] == '\\' then |w| >= 2 && v != [] && v[0] == w[1] && StandsFor(w[2..], v[1..])
    else w[0] != '"' && v != [] && v[0] == w[0] && StandsFor(w[1..], v[1..])
  }

  /** What is read, if anything: the text that the characters up to some quote stand for. */
  lemma {:induction false} UnescapeExactly(t: string, v: string)
    ensures Unescape(t) == Some(v) <==> exists k :: 0 <= k < |t| && t[k] == '"' && StandsFor(t[..k], v)
    decreases |t|, 1
  {
    if t == [] {
    } else if t[0] == '"' {
      assert t[..0] == [];
      assert forall k :: 0 < k <= |t| ==> t[..k][0] == '"';
    } else if t[0] == '\\' {
      if |t| > 1 { UnescapeTail(t, v, 2, t[1]); } else { assert t[..0] == []; }
    } else {
      UnescapeTail(t, v, 1, t[0]);
    }
  }

  // The first n characters of t stand for c.
  lemma {:induction false} UnescapeTail(t: string, v: string, n: nat, c: char)
    requires n <= |t| && 1 <= n <= 2 && c == t[n - 1]
    requires if n == 1 then c != '"' && c != '\\' else t[0] == '\\'
    ensures Unescape(t) == Some(v) <==> exists k :: 0 <= k < |t| && t[k] == '"' && StandsFor(t[..k], v)
    decreases |t|, 0
  {
    var rest := t[n..];
    if v != [] {
      UnescapeExactly(rest, v[1..]);
      assert v == [v[0]] + v[1..];
    }
    if Unescape(t) == Some(v) {
      assert v == [c] + Unescape(rest).value;
      assert v[1..] == Unescape(rest).value;
      var k :| 0 <= k < |rest| && rest[k] == '"' && StandsFor(rest[..k], v[1..]);
      assert t[..k + n][n..] == rest[..k] && t[k + n] == '"';
      assert StandsFor(t[..k + n], v);
    }
    if k :| 0 <= k < |t| && t[k] == '"' && StandsFor(t[..k], v) {
      assert t[..0] == [];
      if k >= n {
        assert t[..k][n..] == rest[..k - n] && rest[k - n] == '"';
      }
    }
  }

  /** The C string t stands at index p, its terminator at index end. */
  ghost predicate Holds(buf: array<char>, p: nat, end: nat, t: string)
    reads buf
  {
    p <= end < buf.Length && buf[p..end] == t && NulFree(t) && buf[end] == '\0'
  }

  /** strpbrk(buf + p, "\"\\") */
  method FindSpecial(buf: array<char>, p: nat, ghost end: nat, ghost t: string) returns (k: nat, found: bool)
    requires Holds(buf, p, end, t)
    ensures p <= k <= end && Plain(t[..k - p])
    ensures found ==> k < end && Special(t[k - p])
    ensures !found ==> k == end
  {
    k := p;
    while buf[k] != '\0' && !Special(buf[k])
      invariant p <= k <= end && Plain(t[..k - p])
      decreases end - k
    {
      assert buf[k] == t[k - p];
      assert t[..k + 1 - p] == t[..k - p] + [t[k - p]];
      k := k + 1;
    }
    if k < end { assert buf[k] == t[k - p]; }
    found := buf[k] != '\0';
  }

  /** memmove(buf + p, buf + p + 1, strlen(buf + p)) */
  method CloseGap(buf: array<char>, p: nat, end: nat)
    requires p < end < buf.Length
    modifies buf
    ensures buf[..p] == old(buf[..p])
    ensures buf[p..end] == old(buf[p + 1..end + 1])
    ensures buf[end..] == old(buf[end..])
  {
    for i := p to end
      invariant buf[..p] == old(buf[..p])
      invariant buf[p..i] == old(buf[p + 1..i + 1])
      invariant forall j :: i <= j < buf.Length ==> buf[j] == old(buf[j])
    {
      buf[i] := buf[i + 1];
    }
  }

  /** Closes the gap over a backslash at k and steps over the character that moves up; over
      the terminator, if the backslash was the last character. */
  method DropBackslash(buf: array<char>, k: nat, ghost end: nat, ghost r: string) returns (ghost end': nat)
    requires Holds(buf, k, end, r) && r != []
    modifies buf
    ensures buf[..k] == old(buf[..k])
    ensures end' == if |r| > 1 then end - 1 else end
    ensures Holds(buf, k + 1, end', if |r| > 1 then r[2..] else [])
    ensures |r| > 1 ==> buf[k] == r[1]
  {
    assert buf[end - 1] == r[|r| - 1];
    var strlen := 0;
    while buf[k + strlen] != '\0'
      invariant k + strlen <= end
      decreases end - strlen
    {
      strlen := strlen + 1;
    }
    assert forall i :: 0 <= i < |r| ==> buf[k + i] == r[i];
    assert k + strlen == end;
    CloseGap(buf, k, k + strlen);
    end' := if |r| > 1 then end - 1 else end;
    assert buf[end] == old(buf[end..])[0];
    assert forall i :: k <= i < end ==> buf[i] == old(buf[k + 1..end + 1])[i - k] == old(buf[i + 1]);
    assert forall i :: k <= i < end ==> old(buf[i]) == r[i - k];
  }

  /** The text v stands finished in front of p2, the text rest is still to be read from it. */
  ghost predicate Reading(buf: array<char>, p: nat, p2: nat, end: nat, v: string, rest: string)
    reads buf
  {
    p <= p2 && Holds(buf, p2, end, rest) && p2 == p + |v| && buf[p..p2] == v && NulFree(v)
  }

  /** The loop's state: v is finished and rest is to be read; or dead, because a backslash
      stood right before the terminator, with nothing left to read. */
  datatype Progress = Progress(v: string, rest: string, dead: bool)

  ghost predicate Standing(buf: array<char>, p: nat, p2: nat, end: nat, g: Progress)
    reads buf
  {
    if g.dead then g.rest == [] && Holds(buf, p2, end, []) else Reading(buf, p, p2, end, g.v, g.rest)
  }

  /** What reading will come to. */
  ghost function Outcome(g: Progress): Option<string> {
    if g.dead then None else Prepend(g.v, Unescape(g.rest))
  }

  // Behind a backslash at l and the character it protects.
  ghost function Behind(g: Progress, l: nat): Progress
    requires l < |g.rest|
  {
    if l + 1 == |g.rest| then Progress(g.v, [], true)
    else Progress(g.v + g.rest[..l] + [g.rest[l + 1]], g.rest[l + 2..], false)
  }

  /** What the loop does at a special character at k: either the closing quote ends the
      text, or reading goes on behind the character that a backslash protects. */
  method AtSpecial(buf: array<char>, p: nat, p2: nat, k: nat, ghost end: nat, ghost g: Progress)
    returns (closed: bool, ghost end': nat)
    requires Standing(buf, p, p2, end, g) && p2 <= k < end && k - p2 < |g.rest| && Special(g.rest[k - p2])
    modifies buf
    ensures closed <==> g.rest[k - p2] == '"'
    ensures closed ==> Holds(buf, p, k, g.v + g.rest[..k - p2])
    ensures !closed ==> k + 1 <= end' <= end && Standing(buf, p, k + 1, end', Behind(g, k - p2))
  {
    SpanHeld(buf, p, p2, end, g.v, g.rest, k);
    ghost var out, r := g.v + g.rest[..k - p2], g.rest[k - p2..];
    closed, end' := buf[k] == '"', end;
    if closed {
      Terminate(buf, p, k, out);
    } else {
      end' := DropBackslash(buf, k, end, r);
      SpanMoved(buf, p, k, out, if |r| > 1 then [r[1]] else []);
    }
  }

  datatype Turn = Missing | Closed | More

  /** One round of the loop in conf_set_sym_val. */
  method Round(buf: array<char>, p: nat, p2: nat, ghost end: nat, ghost g: Progress)
    returns (turn: Turn, next: nat, ghost end': nat, ghost g': Progress)
    requires Standing(buf, p, p2, end, g)
    modifies buf
    ensures turn.Missing? ==> Outcome(g) == None
    ensures turn.Closed? ==> Outcome(g) == Some(g'.v) && Holds(buf, p, p + |g'.v|, g'.v)
    ensures turn.More? ==> p2 < next && Standing(buf, p, next, end', g') && Outcome(g') == Outcome(g)
  {
    var k, found := FindSpecial(buf, p2, end, g.rest);
    UnescapeStep(g, k - p2);
    next, end', g' := k + 1, end, g;
    if !found {
      return Missing, next, end', g';
    }
    var closed;
    closed, end' := AtSpecial(buf, p, p2, k, end, g);
    if closed {
      g' := Progress(g.v + g.rest[..k - p2], [], false);
      return Closed, next, end', g';
    }
    return More, next, end', Behind(g, k - p2);
  }

  /** The loop of conf_set_sym_val on the string that follows the opening quote at p: it
      leaves the unescaped text there, or finds no closing quote. */
  method UnescapeInPlace(buf: array<char>, p: nat, ghost end0: nat, ghost t: string) returns (ok: bool, ghost v: string)
    requires Holds(buf, p, end0, t)
    modifies buf
    ensures Unescape(t) == if ok then Some(v) else None
    ensures ok ==> Holds(buf, p, p + |v|, v)
  {
    var p2 := p;
    ghost var end: nat, g := end0, Progress([], t, false);
    PrependNothing(Unescape(t));
    while true
      invariant Standing(buf, p, p2, end, g) && Outcome(g) == Unescape(t)
      decreases buf.Length - p2
    {
      var turn;
      turn, p2, end, g := Round(buf, p, p2, end, g);
      if !turn.More? {
        return turn.Closed?, g.v;
      }
    }
  }

  // *p2 = 0 at the closing quote
  method Terminate(buf: array<char>, p: nat, k: nat, ghost out: string)
    requires p <= k < buf.Length && buf[p..k] == out && NulFree(out)
    modifies buf
    ensures Holds(buf, p, k, out)
  {
    buf[k] := '\0';
    assert buf[p..k] == out;
  }

  lemma SpanMoved(buf: array<char>, p: nat, k: nat, out: string, last: string)
    requires p <= k < buf.Length && |last| <= 1
    ensures buf[..k][..p] == buf[..p] && buf[..k][p..] == buf[p..k]
    ensures buf[p..k] == out && last != [] && buf[k] == last[0] ==> buf[p..k + 1] == out + last
  {
  }

  lemma SpanHeld(buf: array<char>, p: nat, p2: nat, end: nat, out: string, rest: string, k: nat)
    requires Holds(buf, p2, end, rest) && p <= p2 <= k < end && buf[p..p2] == out && NulFree(out)
    ensures buf[p..k] == out + rest[..k - p2] && NulFree(buf[p..k])
    ensures Holds(buf, k, end, rest[k - p2..]) && buf[k] == rest[k - p2]
  {
    assert buf[p..k] == buf[p..p2] + buf[p2..k];
    assert buf[p2..k] == rest[..k - p2];
    assert buf[k..end] == rest[k - p2..];
  }

  lemma PrependNothing(o: Option<string>)
    ensures Prepend([], o) == o
  {
    if o.Some? { assert [] + o.value == o.value; }
  }

  // What the next special character of the rest says about the whole.
  lemma UnescapeStep(g: Progress, l: nat)
    requires l <= |g.rest| && Plain(g.rest[..l]) && (g.dead ==> g.rest == [])
    ensures l == |g.rest| ==> Outcome(g) == None
    ensures l < |g.rest| && g.rest[l] == '"' ==> Outcome(g) == Some(g.v + g.rest[..l])
    ensures l < |g.rest| && g.rest[l] == '\\' ==> Outcome(Behind(g, l)) == Outcome(g)
  {
    if !g.dead {
      var out, rest := g.v, g.rest;
      var r := rest[l..];
      assert rest == rest[..l] + r;
      UnescapePlain(rest[..l], r);
      PrependConcat(out, rest[..l], Unescape(r));
      if l < |rest| && rest[l] == '"' {
        assert out + rest[..l] + [] == out + rest[..l];
      }
      if l + 1 < |rest| && rest[l] == '\\' {
        assert r[2..] == rest[l + 2..];
        PrependConcat(out + rest[..l], [rest[l + 1]], Unescape(rest[l + 2..]));
      }
    }
  }

  /** A value written by EscapeString and read back from its line is the value written. */
  method StringRoundTrip(s: string, rest: string) returns (v: string)
    requires NulFree(s) && NulFree(rest)
    ensures v == s
  {
    var line, size := EscapeString(s);
    line := line + rest;
    var buf := new char[|line| + 1](i => if 0 <= i < |line| then line[i] else '\0');
    ghost var t := Escape(s) + "\"" + rest;
    EscapeNulFree(s);
    assert line[1..] == t;
    assert buf[1..|line|] == t;
    var ok, _ := UnescapeInPlace(buf, 1, |line|, t);
    UnescapeEscape(s, rest);
    assert Holds(buf, 1, 1 + |s|, s);
    v := buf[1..1 + |s|];
  }

  lemma {:induction false} EscapeNulFree(s: string)
    requires NulFree(s)
    ensures NulFree(Escape(s))
  {
    if s != [] { EscapeNulFree(s[1..]); }
  }
}
