/** Octet strings and the text operations of the Rust standard library that the
    proxy applies to them. A Rust `String` is represented by its UTF-8 octets. */
module Bytes {

  type Byte = c: char | c as int < 256 witness '\0'

  datatype Option<+T> = None | Some(value: T)

  const CRLF: seq<Byte> := "\r\n"

  // ----- Concatenation -----

  lemma ConcatAssoc(a: seq<Byte>, b: seq<Byte>, c: seq<Byte>)
    ensures a + b + c == a + (b + c)
  {
  }

  lemma AppendNothing(a: seq<Byte>)
    ensures a + [] == a
  {
  }

  lemma NothingBefore(a: seq<Byte>)
    ensures [] + a == a
  {
  }

  lemma SameBeforeSuffix(a: seq<Byte>, b: seq<Byte>, e: seq<Byte>)
    requires a + e == b + e
    ensures a == b
  {
    assert |a| == |b|;
    assert a == (a + e)[..|a|] && b == (b + e)[..|b|];
  }

  // ----- Lines -----

  /** Length of the first line of `s`, its LF included. A last line may lack the LF. */
  function LineEnd(s: seq<Byte>): (n: nat)
    ensures n <= |s|
    ensures s != [] ==> 0 < n
  {
    if s == [] then 0
    else if s[0] == '\n' then 1
    else 1 + LineEnd(s[1..])
  }

  /** It is the first LF that ends the line. */
  lemma {:induction false} LineEndMeaning(s: seq<Byte>)
    ensures forall i :: 0 <= i < LineEnd(s) - 1 ==> s[i] != '\n'
    ensures LineEnd(s) < |s| ==> s[LineEnd(s) - 1] == '\n'
  {
    if s != [] && s[0] != '\n' {
      LineEndMeaning(s[1..]);
      assert forall i :: 0 < i < |s| ==> s[i] == s[1..][i - 1];
    }
  }

  /** What one `read_until('\n')` returns when `s` is still unread. */
  function FirstLine(s: seq<Byte>): seq<Byte> { s[..LineEnd(s)] }

  /** What that `read_until('\n')` leaves unread. */
  function AfterLine(s: seq<Byte>): seq<Byte> { s[LineEnd(s)..] }

  /** A complete line: exactly one LF, at its end. */
  predicate IsLine(line: seq<Byte>)
  {
    && line != []
    && line[|line| - 1] == '\n'
    && '\n' !in line[..|line| - 1]
  }

  /** Reading a line from a complete line followed by anything gives that line. */
  lemma FirstLineOf(line: seq<Byte>, rest: seq<Byte>)
    requires IsLine(line)
    ensures FirstLine(line + rest) == line && AfterLine(line + rest) == rest
  {
    var s, last := line + rest, |line| - 1;
    LineEndMeaning(s);
    assert forall i :: 0 <= i < last ==> s[i] == line[..last][i];
    assert s[last] == '\n';
  }

  lemma FirstLineIsLine(s: seq<Byte>)
    requires s != []
    ensures FirstLine(s) + AfterLine(s) == s
    ensures AfterLine(s) != [] ==> IsLine(FirstLine(s))
    ensures IsLine(FirstLine(s)) <==> '\n' in s
  {
    var n := LineEnd(s);
    LineEndMeaning(s);
    assert FirstLine(s)[..n - 1] == s[..n - 1];
    assert s == s[..n - 1] + [s[n - 1]] + s[n..];
  }

  /** The blank line that ends a header block (either spelling is accepted). */
  predicate IsBlank(line: seq<Byte>) { line == "\r\n" || line == "\n" }

  // ----- Text -----

  function LowerByte(c: Byte): Byte
  {
    if 'A' <= c <= 'Z' then (c as int + 32) as char else c
  }

  function Lower(s: seq<Byte>): (r: seq<Byte>)
    ensures |r| == |s|
    ensures forall i :: 0 <= i < |s| ==> r[i] == LowerByte(s[i])
  {
    seq(|s|, i requires 0 <= i < |s| => LowerByte(s[i]))
  }

  /** Length of the longest prefix of `s` free of the `stops`. */
  function Span(s: seq<Byte>, stops: set<Byte>): (n: nat)
    ensures n <= |s|
    ensures n < |s| ==> s[n] in stops
    ensures forall i :: 0 <= i < n ==> s[i] !in stops
  {
    if s == [] || s[0] in stops then 0 else 1 + Span(s[1..], stops)
  }

  lemma SpanIs(a: seq<Byte>, stops: set<Byte>, rest: seq<Byte>)
    requires forall i :: 0 <= i < |a| ==> a[i] !in stops
    requires rest == [] || rest[0] in stops
    ensures Span(a + rest, stops) == |a|
  {
    var s, n := a + rest, Span(a + rest, stops);
    assert forall i :: 0 <= i < |a| ==> s[i] == a[i];
    assert rest != [] ==> s[|a|] == rest[0];
  }

  /** `s.split(':').nth(1)`: the text between the first and the second colon. */
  function ColonField(s: seq<Byte>): seq<Byte>
  {
    var i := Span(s, {':'});
    if i == |s| then []
    else
      var rest := s[i + 1..];
      rest[..Span(rest, {':'})]
  }

  /** `p` occurs somewhere in `s`. */
  predicate Contains(s: seq<Byte>, p: seq<Byte>)
  {
    p <= s || (s != [] && Contains(s[1..], p))
  }

  /** The recursive search finds exactly the substrings. */
  lemma {:induction false} ContainsIff(s: seq<Byte>, p: seq<Byte>)
    ensures Contains(s, p) <==> exists i :: 0 <= i <= |s| && p <= s[i..]
  {
    assert s[0..] == s;
    if s != [] {
      ContainsIff(s[1..], p);
      forall i | 0 < i <= |s| ensures s[i..] == s[1..][i - 1..] {}
      if i :| 0 <= i <= |s[1..]| && p <= s[1..][i..] {
        assert p <= s[i + 1..];
      }
      if i :| 0 < i <= |s| && p <= s[i..] {
        assert p <= s[1..][i - 1..];
      }
    } else {
      forall i | 0 <= i <= |s| ensures s[i..] == s {}
    }
  }

  // ----- Line endings do not disturb the tests made on a line -----

  predicate IsEol(e: seq<Byte>) { e == "\r\n" || e == "\n" }

  lemma PrefixBeforeEol(x: seq<Byte>, e: seq<Byte>, p: seq<Byte>)
    requires IsEol(e) && '\r' !in p && '\n' !in p
    ensures p <= x + e <==> p <= x
  {
    assert |x| < |p| <= |x + e| ==> (x + e)[|x|] == e[0] && p[|x|] in p;
  }

  lemma {:induction false} ContainsBeforeEol(x: seq<Byte>, e: seq<Byte>, p: seq<Byte>)
    requires IsEol(e) && p != [] && '\r' !in p && '\n' !in p
    ensures Contains(x + e, p) <==> Contains(x, p)
  {
    PrefixBeforeEol(x, e, p);
    if x == [] {
      assert x + e == e && e[1..] == if |e| == 2 then "\n" else "";
      assert p[0] != '\r' && p[0] != '\n';
      assert !Contains("", p) && !Contains("\n", p) && !Contains(e, p);
    } else {
      assert (x + e)[1..] == x[1..] + e;
      ContainsBeforeEol(x[1..], e, p);
    }
  }
}
