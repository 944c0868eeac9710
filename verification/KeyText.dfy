/** The SYMMETRIC KEY text form: what is written for an AES key, and what is read
    from any text. */
module KeyText {
  import opened Prelude
  import opened Encoding
  import opened Keys

  const ALG_AES: int32 := 3
  const NEWLINE: byte := 10
  const HYPHEN: byte := 45

  /** The lines around a key. */
  datatype Markers = Markers(begin: Text, end: Text)

  /** "-----BEGIN SYMMETRIC KEY-----" and "-----END SYMMETRIC KEY-----". */
  const SYMMETRIC_KEY := Markers(
    [45, 45, 45, 45, 45, 66, 69, 71, 73, 78, 32,
     83, 89, 77, 77, 69, 84, 82, 73, 67, 32, 75, 69, 89, 45, 45, 45, 45, 45],
    [45, 45, 45, 45, 45, 69, 78, 68, 32,
     83, 89, 77, 77, 69, 84, 82, 73, 67, 32, 75, 69, 89, 45, 45, 45, 45, 45])

  predicate AesSize(n: nat) {
    n == 16 || n == 24 || n == 32
  }

  predicate IsAes(key: Key) {
    key.algorithm == ALG_AES && AesSize(|key.value|)
  }

  /** The AES key made of some bytes. */
  function AesKey(bytes: Bytes): Key
    requires AesSize(|bytes|)
  {
    Key(SymmetricKey, bytes, None, ALG_AES, Some(8 * |bytes|))
  }

  // -------------------------------------------------------------------- lines

  predicate IsTrailing(c: byte) {
    c == 32 || c == 9 || c == 13
  }

  predicate Blank(s: Text) {
    forall k :: 0 <= k < |s| ==> s[k] == 32 || s[k] == 9 || s[k] == 13
  }

  predicate Trimmed(line: Text) {
    line == [] || !IsTrailing(line[|line| - 1])
  }

  /** A line without its trailing spaces, tabs and carriage returns. */
  function Trim(line: Text): (t: Text)
    ensures Trimmed(t) && t <= line
  {
    if Trimmed(line) then line else Trim(line[..|line| - 1])
  }

  lemma {:induction false} TrimIs(t: Text, w: Text)
    requires Trimmed(t) && Blank(w)
    ensures Trim(t + w) == t
  {
    if w == [] {
      assert t + w == t;
    } else {
      assert (t + w)[..|t + w| - 1] == t + w[..|w| - 1];
      TrimIs(t, w[..|w| - 1]);
    }
  }

  predicate OneLine(line: Text) {
    forall k :: 0 <= k < |line| ==> line[k] != NEWLINE
  }

  /** The first line ends at `n`. */
  predicate EndsAt(s: Text, n: nat) {
    n <= |s| && (n < |s| ==> s[n] == NEWLINE) && forall k :: 0 <= k < n ==> s[k] != NEWLINE
  }

  lemma {:induction false} SomeEnd(s: Text) returns (n: nat)
    ensures EndsAt(s, n)
  {
    if s == [] || s[0] == NEWLINE {
      n := 0;
    } else {
      n := SomeEnd(s[1..]);
      n := n + 1;
    }
  }

  ghost function LineEnd(s: Text): (n: nat)
    ensures EndsAt(s, n)
  {
    assert exists n: nat :: EndsAt(s, n) by {
      var n := SomeEnd(s);
    }
    var n: nat :| EndsAt(s, n);
    n
  }

  /** What is left after the first line. */
  ghost function AfterLine(s: Text): (t: Text)
    ensures s != [] ==> |t| < |s|
  {
    if LineEnd(s) < |s| then s[LineEnd(s) + 1..] else []
  }

  /** The lines of a text; a newline at its end begins no further line. */
  ghost function Lines(s: Text): seq<Text>
    decreases |s|
  {
    if s == [] then [] else [s[..LineEnd(s)]] + Lines(AfterLine(s))
  }

  lemma FirstLine(line: Text, rest: Text)
    requires OneLine(line)
    ensures Lines(line + [NEWLINE] + rest) == [line] + Lines(rest)
  {
    var s := line + [NEWLINE] + rest;
    assert s[|line|] == NEWLINE && s[..|line|] == line && s[|line| + 1..] == rest;
    assert forall k :: 0 <= k < |line| ==> s[k] == line[k];
    assert LineEnd(s) == |line|;
  }

  lemma LastLine(line: Text)
    requires OneLine(line) && line != []
    ensures Lines(line) == [line]
  {
    assert LineEnd(line) == |line|;
    assert line[..|line|] == line;
  }

  /** A text in front that ends with its last line only adds its lines. */
  lemma {:induction false} LinesBefore(before: Text, rest: Text)
    requires before == [] || before[|before| - 1] == NEWLINE
    ensures Lines(before + rest) == Lines(before) + Lines(rest)
    decreases |before|
  {
    if before == [] {
      assert before + rest == rest;
    } else {
      LineOf(before, rest);
      LinesBefore(AfterLine(before), rest);
      Regroup(before[..LineEnd(before)], Lines(AfterLine(before)), Lines(rest));
    }
  }

  lemma Regroup(line: Text, a: seq<Text>, b: seq<Text>)
    ensures [line] + (a + b) == ([line] + a) + b
  {
  }

  lemma LineOf(s: Text, rest: Text)
    requires s != [] && s[|s| - 1] == NEWLINE
    ensures Lines(s + rest) == [s[..LineEnd(s)]] + Lines(AfterLine(s) + rest)
    ensures AfterLine(s) == [] || AfterLine(s)[|AfterLine(s)| - 1] == NEWLINE
  {
    Cut(s, LineEnd(s), rest);
    FirstLine(s[..LineEnd(s)], AfterLine(s) + rest);
  }

  lemma Cut(s: Text, n: nat, rest: Text)
    requires n < |s| && s[n] == NEWLINE
    ensures s + rest == s[..n] + [NEWLINE] + (s[n + 1..] + rest)
  {
  }

  // ------------------------------------------------------------------ reading

  /** The lines put end to end, trimmed. */
  function Joined(lines: seq<Text>): Text {
    if lines == [] then [] else Joined(lines[..|lines| - 1]) + Trim(lines[|lines| - 1])
  }

  /** No line from `a` to `b` is this one. */
  predicate NoLine(lines: seq<Text>, a: nat, b: nat, line: Text)
    requires b <= |lines|
  {
    forall k :: a <= k < b ==> Trim(lines[k]) != line
  }

  /** Line `i` is the first BEGIN line, and line `j` the first END line after it. */
  predicate Armor(m: Markers, lines: seq<Text>, i: nat, j: nat) {
    && i < j < |lines|
    && Trim(lines[i]) == m.begin && NoLine(lines, 0, i, m.begin)
    && Trim(lines[j]) == m.end && NoLine(lines, i + 1, j, m.end)
  }

  /** The text holds, between the two, the Base64 of an AES key, with whitespace
      anywhere. */
  ghost predicate Holds(m: Markers, pem: Text, key: Bytes) {
    (|key| == 16 || |key| == 24 || |key| == 32) && exists i: nat, j: nat :: Between(m, Lines(pem), i, j, key)
  }

  predicate Between(m: Markers, lines: seq<Text>, i: nat, j: nat, key: Bytes) {
    Armor(m, lines, i, j) && Strip(Joined(lines[i + 1..j])) == Base64(key)
  }

  /** A text holds one key at most. */
  lemma HoldsOne(m: Markers, pem: Text, a: Bytes, b: Bytes)
    requires Holds(m, pem, a) && Holds(m, pem, b)
    ensures a == b
  {
    var lines := Lines(pem);
    var i: nat, j: nat :| Between(m, lines, i, j, a);
    var k: nat, l: nat :| Between(m, lines, k, l, b);
    SameBody(m, lines, i, j, k, l, a, b);
  }

  lemma SameBody(m: Markers, lines: seq<Text>, i: nat, j: nat, k: nat, l: nat, a: Bytes, b: Bytes)
    requires Between(m, lines, i, j, a) && Between(m, lines, k, l, b)
    ensures a == b
  {
    ArmorUnique(m, lines, i, j, k, l);
    Base64Injective(a, b);
  }

  lemma ArmorUnique(m: Markers, lines: seq<Text>, i: nat, j: nat, k: nat, l: nat)
    requires Armor(m, lines, i, j) && Armor(m, lines, k, l)
    ensures i == k && j == l
  {
  }

  /** What the reader knows after `n` lines. */
  ghost predicate Scanned(m: Markers, lines: seq<Text>, n: nat, inPem: bool, start: nat, b64: Text) {
    && n <= |lines|
    && if !inPem then NoLine(lines, 0, n, m.begin) && b64 == []
       else
         && start < n && Trim(lines[start]) == m.begin && NoLine(lines, 0, start, m.begin)
         && NoLine(lines, start + 1, n, m.end) && b64 == Joined(lines[start + 1..n])
  }

  lemma ScannedNext(m: Markers, lines: seq<Text>, n: nat, inPem: bool, start: nat, b64: Text)
    requires Scanned(m, lines, n, inPem, start, b64) && n < |lines|
    ensures var line := Trim(lines[n]);
            if !inPem then Scanned(m, lines, n + 1, line == m.begin, n, b64)
            else if line == m.end then Armor(m, lines, start, n) && Joined(lines[start + 1..n]) == b64
            else Scanned(m, lines, n + 1, true, start, b64 + line)
  {
    if inPem {
      JoinedNext(lines, start + 1, n);
    } else {
      assert lines[n + 1..n + 1] == [];
    }
  }

  lemma JoinedNext(lines: seq<Text>, a: nat, n: nat)
    requires a <= n < |lines|
    ensures Joined(lines[a..n + 1]) == Joined(lines[a..n]) + Trim(lines[n])
  {
    assert lines[a..n + 1][..n - a] == lines[a..n];
  }

  lemma LineTaken(lines: seq<Text>, n: nat, rest: Text)
    requires n <= |lines| && lines[n..] == Lines(rest) && rest != []
    ensures n < |lines| && lines[n] == rest[..LineEnd(rest)] && lines[n + 1..] == Lines(AfterLine(rest))
  {
    assert lines[n] == lines[n..][0] && lines[n + 1..] == lines[n..][1..];
  }

  /** Reads the key a text holds, and nothing from any other text. */
  method ReadKey(m: Markers, pem: Text) returns (r: Option<Key>)
    ensures r.Some? ==> Holds(m, pem, r.value.value) && r.value == AesKey(r.value.value)
    ensures r.None? ==> forall key :: !Holds(m, pem, key)
  {
    var complete, b64;
    ghost var i, j;
    complete, b64, i, j := FindBody(m, pem);
    if !complete {
      return None;
    }
    r := Decode(m, pem, b64, i, j);
  }

  /** The lines between the markers, put end to end. */
  method FindBody(m: Markers, pem: Text) returns (complete: bool, b64: Text, ghost start: nat, ghost n: nat)
    ensures complete ==> Armor(m, Lines(pem), start, n) && b64 == Joined(Lines(pem)[start + 1..n])
    ensures !complete ==> forall i: nat, j: nat :: !Armor(m, Lines(pem), i, j)
  {
    var rest, inPem := pem, false;
    complete, b64, start, n := false, [], 0, 0;
    ghost var lines := Lines(pem);
    while rest != []
      invariant Scanned(m, lines, n, inPem, start, b64) && lines[n..] == Lines(rest)
      decreases |rest|
    {
      var line;
      LineTaken(lines, n, rest);
      ScannedNext(m, lines, n, inPem, start, b64);
      line, rest := TakeLine(rest);
      if !inPem {
        inPem, start, n := line == m.begin, n, n + 1;
        continue;
      }
      if line == m.end {
        complete := true;
        return;
      }
      b64, n := b64 + line, n + 1;
    }
    NothingFound(m, lines, n, inPem, start, b64);
  }

  /** The first line, trimmed, and what is left after it. */
  method TakeLine(s: Text) returns (line: Text, rest: Text)
    ensures line == Trim(s[..LineEnd(s)]) && rest == AfterLine(s)
  {
    var eol := 0;
    while eol < |s| && s[eol] != NEWLINE
      invariant eol <= |s| && forall k :: 0 <= k < eol ==> s[k] != NEWLINE
    {
      eol := eol + 1;
    }
    assert eol == LineEnd(s);
    line := Trim(s[..eol]);
    rest := if eol < |s| then s[eol + 1..] else [];
  }

  lemma NothingFound(m: Markers, lines: seq<Text>, n: nat, inPem: bool, start: nat, b64: Text)
    requires Scanned(m, lines, n, inPem, start, b64) && lines[n..] == []
    ensures forall i: nat, j: nat :: !Armor(m, lines, i, j)
  {
    assert n == |lines|;
    forall i: nat, j: nat ensures !Armor(m, lines, i, j) {
      if Armor(m, lines, i, j) {
        assert false;
      }
    }
  }

  lemma HeldThere(m: Markers, pem: Text, i: nat, j: nat, key: Bytes)
    requires Armor(m, Lines(pem), i, j) && Holds(m, pem, key)
    ensures Strip(Joined(Lines(pem)[i + 1..j])) == Base64(key) && AesSize(|key|)
  {
    var k: nat, l: nat :| Between(m, Lines(pem), k, l, key);
    ArmorUnique(m, Lines(pem), i, j, k, l);
  }

  /** The end of the reader: the body decoded, if it is an AES key. */
  method Decode(m: Markers, pem: Text, b64: Text, ghost i: nat, ghost j: nat) returns (r: Option<Key>)
    requires Armor(m, Lines(pem), i, j) && b64 == Joined(Lines(pem)[i + 1..j])
    ensures r.Some? ==> Holds(m, pem, r.value.value) && r.value == AesKey(r.value.value)
    ensures r.None? ==> forall key :: !Holds(m, pem, key)
  {
    forall key | Holds(m, pem, key) ensures Strip(b64) == Base64(key) && AesSize(|key|) {
      HeldThere(m, pem, i, j, key);
    }
    if b64 == [] {
      return None;
    }
    var bytes := FromBase64(b64);
    if bytes.Err? {
      return None;
    }
    forall key | Holds(m, pem, key) ensures key == bytes.value {
      Base64Injective(key, bytes.value);
    }
    if !AesSize(|bytes.value|) {
      return None;
    }
    assert Between(m, Lines(pem), i, j, bytes.value);
    r := Some(AesKey(bytes.value));
  }

  // ------------------------------------------------------------------ writing

  /** The text of a key, as it may reach the reader: other lines in front of it,
      whitespace after each of its lines, anything after it. */
  function Wrapped(m: Markers, before: Text, key: Bytes, w: (Text, Text, Text), after: Text): Text {
    before + (m.begin + w.0 + [NEWLINE] + (Base64(key) + w.1 + [NEWLINE] + (m.end + w.2 + after)))
  }

  /** Writes the text of an AES key, and refuses any other. */
  method WriteKey(m: Markers, key: Key) returns (r: Result<Text>)
    ensures r.Ok? <==> IsAes(key)
    ensures r.Ok? ==> r.value == Wrapped(m, [], key.value, ([], [], []), [NEWLINE])
  {
    if !IsAes(key) {
      return Err(GENERAL_FAILURE);
    }
    var b64 := ToBase64(key.value);
    var pem := m.begin + [NEWLINE];
    pem := pem + b64;
    pem := pem + ([NEWLINE] + m.end + [NEWLINE]);
    return Ok(pem);
  }

  /** A text in front: whole lines, none of them a BEGIN line. */
  ghost predicate Preamble(m: Markers, before: Text) {
    (before == [] || before[|before| - 1] == NEWLINE) && NoLine(Lines(before), 0, |Lines(before)|, m.begin)
  }

  /** A line that is one whatever whitespace is added to it. */
  predicate Plain(line: Text) {
    OneLine(line) && Trimmed(line)
  }

  /** Markers that no Base64 line is taken for. */
  predicate Proper(m: Markers) {
    Plain(m.begin) && Plain(m.end) && m.end != [] && m.end[0] == HYPHEN
  }

  lemma PlainBase64(key: Bytes)
    ensures Plain(Base64(key)) && Strip(Base64(key)) == Base64(key) && (Base64(key) == [] || Base64(key)[0] != HYPHEN)
  {
    StripNothing(Base64(key));
    assert Base64(key) != [] ==> Base64(key)[0] == Base64At(key, 0);
  }

  lemma PlainLine(line: Text, w: Text)
    requires Plain(line) && Blank(w)
    ensures OneLine(line + w) && Trim(line + w) == line
  {
    TrimIs(line, w);
    forall k | 0 <= k < |line + w| ensures (line + w)[k] != NEWLINE {
      if k >= |line| {
        assert w[k - |line|] in w;
      }
    }
  }

  /** Three lines after some others, and before the rest. */
  lemma ThreeLines(before: Text, a: Text, b: Text, c: Text, after: Text)
    requires before == [] || before[|before| - 1] == NEWLINE
    requires OneLine(a) && OneLine(b) && OneLine(c) && c != [] && (after == [] || after[0] == NEWLINE)
    ensures Follow(Lines(before), a, b, c, Lines(before + (a + [NEWLINE] + (b + [NEWLINE] + (c + after)))))
  {
    var last := c + after;
    var body := b + [NEWLINE] + last;
    var rest := a + [NEWLINE] + body;
    LinesBefore(before, rest);
    FirstLine(a, body);
    FirstLine(b, last);
    EndLine(c, after);
    Leading(Lines(before), a, b, c, Lines(last));
  }

  predicate Follow(head: seq<Text>, a: Text, b: Text, c: Text, lines: seq<Text>) {
    var i := |head|;
    i + 2 < |lines| && lines[..i] == head && lines[i] == a && lines[i + 1] == b && lines[i + 2] == c
  }

  lemma Leading(head: seq<Text>, a: Text, b: Text, c: Text, rest: seq<Text>)
    requires [c] <= rest
    ensures Follow(head, a, b, c, head + ([a] + ([b] + rest)))
  {
    assert rest[0] == [c][0];
  }

  lemma EndLine(c: Text, after: Text)
    requires OneLine(c) && c != [] && (after == [] || after[0] == NEWLINE)
    ensures Lines(c + after) == [c] + if after == [] then [] else Lines(after[1..])
  {
    if after == [] {
      LastLine(c);
      assert c + [] == c;
    } else {
      assert c + after == c + [NEWLINE] + after[1..];
      FirstLine(c, after[1..]);
    }
  }

  /** Whatever stands around it, the text of an AES key holds that key. */
  lemma WrappedHolds(m: Markers, before: Text, key: Bytes, w: (Text, Text, Text), after: Text)
    requires Proper(m) && Preamble(m, before) && Blank(w.0) && Blank(w.1) && Blank(w.2)
    requires after == [] || after[0] == NEWLINE
    requires AesSize(|key|)
    ensures Holds(m, Wrapped(m, before, key, w, after), key)
  {
    PlainBase64(key);
    PlainLine(m.begin, w.0);
    PlainLine(Base64(key), w.1);
    PlainLine(m.end, w.2);
    LinesHold(m, before, m.begin + w.0, Base64(key) + w.1, m.end + w.2, after, key);
  }

  lemma LinesHold(m: Markers, before: Text, a: Text, b: Text, c: Text, after: Text, key: Bytes)
    requires Preamble(m, before) && OneLine(a) && OneLine(b) && OneLine(c) && (after == [] || after[0] == NEWLINE)
    requires Trim(a) == m.begin && Trim(b) != m.end && Trim(c) == m.end && c != []
    requires Strip(Trim(b)) == Base64(key) && AesSize(|key|)
    ensures Holds(m, before + (a + [NEWLINE] + (b + [NEWLINE] + (c + after))), key)
  {
    ThreeLines(before, a, b, c, after);
    var lines := Lines(before + (a + [NEWLINE] + (b + [NEWLINE] + (c + after))));
    ThreeHold(m, Lines(before), a, b, c, lines);
  }

  lemma ThreeHold(m: Markers, head: seq<Text>, a: Text, b: Text, c: Text, lines: seq<Text>)
    requires Follow(head, a, b, c, lines) && NoLine(head, 0, |head|, m.begin)
    requires Trim(a) == m.begin && Trim(b) != m.end && Trim(c) == m.end
    ensures forall key :: Strip(Trim(b)) == Base64(key) ==> Between(m, lines, |head|, |head| + 2, key)
  {
    var i := |head|;
    assert forall k :: 0 <= k < i ==> lines[k] == head[k];
    JoinedNext(lines, i + 1, i + 1);
    assert lines[i + 1..i + 1] == [] && [] + Trim(b) == Trim(b);
    assert Joined(lines[i + 1..i + 2]) == Trim(b);
  }

  /** Reading undoes writing, whatever text precedes or follows the lines written
      and whatever whitespace is added to them. */
  method ReadBack(before: Text, key: Bytes, w: (Text, Text, Text), after: Text) returns (r: Option<Key>)
    requires |key| == 16 || |key| == 24 || |key| == 32
    requires Preamble(SYMMETRIC_KEY, before) && Blank(w.0) && Blank(w.1) && Blank(w.2)
    requires after == [] || after[0] == NEWLINE
    ensures r == Some(Key(SymmetricKey, key, None, 3, Some(8 * |key|)))
  {
    var m := SYMMETRIC_KEY;
    var pem := Wrapped(m, before, key, w, after);
    WrappedHolds(m, before, key, w, after);
    r := ReadSymmetricKey(pem);
    if r.Some? {
      HoldsOne(m, pem, r.value.value, key);
    }
  }

  /** The text form itself: an AES key of 128, 192 or 256 bits. */
  method ReadSymmetricKey(pem: Text) returns (r: Option<Key>)
    ensures r.Some? ==>
              && Holds(SYMMETRIC_KEY, pem, r.value.value)
              && r.value == Key(SymmetricKey, r.value.value, None, 3, Some(8 * |r.value.value|))
    ensures r.None? ==> forall key :: !Holds(SYMMETRIC_KEY, pem, key)
  {
    r := ReadKey(SYMMETRIC_KEY, pem);
  }

  method WriteSymmetricKey(key: Key) returns (r: Result<Text>)
    ensures r.Ok? <==> key.algorithm == 3 && (|key.value| == 16 || |key.value| == 24 || |key.value| == 32)
    ensures r.Ok? ==> r.value == Wrapped(SYMMETRIC_KEY, [], key.value, ([], [], []), [NEWLINE])
  {
    r := WriteKey(SYMMETRIC_KEY, key);
  }
}
