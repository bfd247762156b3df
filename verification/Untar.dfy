// untar: the members of an archive in the ustar interchange format, the size
// in octal, bodies in blocks of 512 bytes, and a block that begins with a zero
// byte at the end (kernel/main.c:12-60; pax utility, POSIX.1).
module Untar {
  const BLOCK := 512
  const BUFFER := 8192
  const NUL := 0 as char
  const NAME_LEN := 100
  const SIZE_OFFSET := 124
  const SIZE_LEN := 12

  datatype Member = Member(name: string, body: seq<char>)

  function Min(a: nat, b: nat): nat { if a <= b then a else b }

  // ----------------------------------------------------------- the format

  predicate IsOctal(s: string) {
    forall i :: 0 <= i < |s| ==> '0' <= s[i] <= '7'
  }

  function OctalValue(s: string): nat
    requires IsOctal(s)
  {
    if s == [] then 0 else 8 * OctalValue(s[..|s| - 1]) + (s[|s| - 1] - '0') as nat
  }

  // n bytes take this many in whole blocks.
  function Padded(n: nat): nat { (n + BLOCK - 1) / BLOCK * BLOCK }

  // It is the least multiple of 512 that is not below n.
  lemma PaddedIsLeast(n: nat)
    ensures Padded(n) % 512 == 0 && n <= Padded(n) < n + 512
  {
  }

  // The digits count eightfold from right to left.
  lemma ThreeDigits(a: char, b: char, c: char)
    requires IsOctal([a, b, c])
    ensures OctalValue([a, b, c]) == (a as int - 48) * 64 + (b as int - 48) * 8 + (c as int - 48)
  {
    var s := [a, b, c];
    assert s[0] == a && s[1] == b && s[2] == c;
    assert s[..2] == [a, b] && s[..2][..1] == [a] && [a][..0] == [];
    assert OctalValue([a]) == (a as int - 48);
    assert OctalValue([a, b]) == 8 * OctalValue([a]) + (b as int - 48);
  }

  // A field that holds the text s, and a NUL after it.
  predicate Field(h: seq<char>, off: nat, s: string) {
    && off + |s| < |h| && h[off..off + |s|] == s && h[off + |s|] == NUL
    && forall i :: 0 <= i < |s| ==> s[i] != NUL
  }

  predicate IsHeader(h: seq<char>, m: Member) {
    && |h| == BLOCK && m.name != [] && |m.name| < NAME_LEN && Field(h, 0, m.name)
    && exists k :: 0 <= k < SIZE_LEN && SizeField(h, k, |m.body|)
  }

  predicate SizeField(h: seq<char>, k: nat, size: nat)
    requires |h| == BLOCK && k < SIZE_LEN
  {
    var s := h[SIZE_OFFSET..SIZE_OFFSET + k];
    IsOctal(s) && OctalValue(s) == size && h[SIZE_OFFSET + k] == NUL
  }

  // Where the fields are: the name at byte 0, the size at byte 124.
  lemma HeaderFields(h: seq<char>, m: Member) returns (k: nat)
    requires IsHeader(h, m)
    ensures |h| == 512 && |m.name| < 100 && h[..|m.name|] == m.name && h[|m.name|] as int == 0
    ensures k < 12 && h[124 + k] as int == 0 && IsOctal(h[124..124 + k]) && OctalValue(h[124..124 + k]) == |m.body|
  {
    k :| 0 <= k < SIZE_LEN && SizeField(h, k, |m.body|);
    assert h[124 + k] as int == 0 && IsOctal(h[124..124 + k]);
    assert h[0..|m.name|] == h[..|m.name|];
  }

  // The bytes of a member in the archive.
  function Extent(m: Member): nat { BLOCK + Padded(|m.body|) }

  // Member m lies at byte at of the archive.
  predicate MemberAt(a: seq<char>, at: nat, m: Member) {
    && at + Extent(m) <= |a| && |m.body| <= Padded(|m.body|) && IsHeader(a[at..at + BLOCK], m)
    && a[at + BLOCK..at + BLOCK + |m.body|] == m.body
  }

  // Where member i begins; the end block, for the number of members.
  function Start(ms: seq<Member>, i: nat): nat
    requires i <= |ms|
  {
    if i == 0 then 0 else Start(ms, i - 1) + Extent(ms[i - 1])
  }

  predicate InPlace(a: seq<char>, ms: seq<Member>, i: nat)
    requires i < |ms|
  {
    MemberAt(a, Start(ms, i), ms[i])
  }

  // a is an archive of these members, in this order.
  predicate Archive(a: seq<char>, ms: seq<Member>) {
    && Start(ms, |ms|) + BLOCK <= |a| && a[Start(ms, |ms|)] == NUL
    && forall i :: 0 <= i < |ms| ==> InPlace(a, ms, i)
  }

  // ---------------------------------------------------------------- untar

  // What is open for reading, and where.
  class Tape {
    const data: array<char>
    var pos: nat

    constructor (data: array<char>)
      ensures this.data == data && pos == 0
    {
      this.data, pos := data, 0;
    }

    // read of whole blocks that are there
    method Read(buf: array<char>, n: nat)
      requires buf != data && n <= buf.Length && pos + n <= data.Length
      modifies this`pos, buf
      ensures pos == old(pos) + n && forall k :: 0 <= k < n ==> buf[k] == data[old(pos) + k]
    {
      forall k | 0 <= k < n {
        buf[k] := data[pos + k];
      }
      pos := pos + n;
    }
  }

  // kernel/main.c:39-41; the digits end before the field does.
  method ParseSize(buf: array<char>, ghost k: nat) returns (size: nat)
    requires buf.Length >= BLOCK && k < SIZE_LEN && IsOctal(buf[SIZE_OFFSET..SIZE_OFFSET + k])
      && buf[SIZE_OFFSET + k] == NUL
    ensures size == OctalValue(buf[SIZE_OFFSET..SIZE_OFFSET + k])
  {
    size := 0;
    var p := SIZE_OFFSET;
    ghost var s := buf[SIZE_OFFSET..SIZE_OFFSET + k];
    while buf[p] != NUL
      invariant SIZE_OFFSET <= p <= SIZE_OFFSET + k && size == OctalValue(s[..p - SIZE_OFFSET])
      decreases SIZE_OFFSET + k - p
    {
      ghost var i := p - SIZE_OFFSET;
      assert p < SIZE_OFFSET + k ==> buf[p] == s[i];
      assert s[..i + 1][..i] == s[..i];
      size := size * 8 + (buf[p] - '0') as nat;
      p := p + 1;
    }
    assert s[..k] == s;
  }

  lemma PaddedStep(left: nat)
    requires left > 0
    ensures ((Min(left, BUFFER) - 1) / 512 + 1) * 512 == Padded(Min(left, BUFFER)) <= BUFFER
    ensures Padded(left) == Padded(Min(left, BUFFER)) + Padded(left - Min(left, BUFFER))
    ensures left > BUFFER ==> Padded(Min(left, BUFFER)) == BUFFER
    ensures Min(left, BUFFER) <= Padded(Min(left, BUFFER))
  {
  }

  lemma Joined(data: seq<char>, start: nat, done: nat, more: nat)
    requires start + done + more <= |data|
    ensures data[start..start + done] + data[start + done..start + done + more] == data[start..start + (done + more)]
  {
  }

  // kernel/main.c:44-49: the body, piece by piece
  method CopyBody(tape: Tape, buf: array<char>, size: nat) returns (body: seq<char>)
    requires buf != tape.data && buf.Length == BUFFER && tape.pos + Padded(size) <= tape.data.Length
    modifies tape`pos, buf
    ensures tape.pos == old(tape.pos) + Padded(size)
    ensures size <= Padded(size) && body == tape.data[old(tape.pos)..old(tape.pos) + size]
  {
    body := [];
    var left: nat := size;
    ghost var start := tape.pos;
    while left > 0
      invariant Copied(tape.data[..], start, size, left, tape.pos, body)
      decreases left
    {
      var bytes := Min(left, BUFFER);
      ghost var from := tape.pos;
      PaddedStep(left);
      tape.Read(buf, ((bytes - 1) / 512 + 1) * 512);
      CopiedStep(tape.data[..], start, size, left, from, body, buf[..bytes]);
      body := body + buf[..bytes];
      left := left - bytes;
    }
  }

  // All but left characters of the body that begins at start are in text.
  predicate Copied(data: seq<char>, start: nat, size: nat, left: nat, pos: nat, text: seq<char>) {
    && left <= size <= Padded(size) && pos + Padded(left) == start + Padded(size) <= |data|
    && (left > 0 ==> pos == start + (size - left))
    && text == data[start..start + (size - left)]
  }

  lemma CopiedStep(data: seq<char>, start: nat, size: nat, left: nat, pos: nat, text: seq<char>, piece: seq<char>)
    requires left > 0 && Copied(data, start, size, left, pos, text) && |piece| == Min(left, BUFFER)
    requires pos + |piece| <= |data| && forall k :: 0 <= k < |piece| ==> piece[k] == data[pos + k]
    ensures Copied(data, start, size, left - |piece|, pos + Padded(|piece|), text + piece)
  {
    PaddedStep(left);
    assert piece == data[pos..pos + |piece|];
    Joined(data, start, size - left, |piece|);
  }

  // kernel/main.c:32-52, for one member whose header is in buf
  method ExtractOne(tape: Tape, buf: array<char>, ghost m: Member) returns (name: string, body: seq<char>)
    requires buf != tape.data && buf.Length == BUFFER && IsHeader(buf[..BLOCK], m)
    requires tape.pos + Padded(|m.body|) <= tape.data.Length
    modifies tape`pos, buf
    ensures tape.pos == old(tape.pos) + Padded(|m.body|) && name == m.name
    ensures |m.body| <= Padded(|m.body|) && body == tape.data[old(tape.pos)..old(tape.pos) + |m.body|]
  {
    ghost var h := buf[..BLOCK];
    ghost var k :| 0 <= k < SIZE_LEN && SizeField(h, k, |m.body|);
    assert buf[SIZE_OFFSET..SIZE_OFFSET + k] == h[SIZE_OFFSET..SIZE_OFFSET + k];
    name := NameIn(buf, m.name);
    var size := ParseSize(buf, k);
    body := CopyBody(tape, buf, size);
  }

  // The text at the beginning of the buffer, up to the first NUL.
  method NameIn(buf: array<char>, ghost name: string) returns (s: string)
    requires buf.Length >= BLOCK && |name| < NAME_LEN && Field(buf[..BLOCK], 0, name)
    ensures s == name
  {
    ghost var h := buf[..BLOCK];
    assert forall j :: 0 <= j < |name| ==> h[j] == h[..|name|][j] && h[j] != NUL;
    var n := 0;
    while buf[n] != NUL
      invariant n <= |name|
      decreases |name| - n
    {
      assert h[n] == buf[n];
      n := n + 1;
    }
    assert h[n] == buf[n];
    s := buf[..n];
    assert s == h[..n];
  }

  // ------------------------------------------------------------ all members

  // The members in front of the first that cannot be opened.
  function Opened(ms: seq<Member>, opens: string -> bool): (n: nat)
    ensures n <= |ms| && (forall i :: 0 <= i < n ==> opens(ms[i].name)) && (n < |ms| ==> !opens(ms[n].name))
  {
    if ms == [] || !opens(ms[0].name) then 0 else 1 + Opened(ms[1..], opens)
  }

  lemma HeaderIsNotTheEnd(h: seq<char>, m: Member)
    requires IsHeader(h, m)
    ensures h[0] != NUL
  {
    assert h[0..|m.name|] == m.name && m.name[0] == h[0];
  }

  // What lies at the start of member i.
  lemma AtStart(a: seq<char>, ms: seq<Member>, i: nat)
    requires Archive(a, ms) && i <= |ms|
    ensures Start(ms, i) + BLOCK <= |a|
    ensures if i < |ms| then MemberAt(a, Start(ms, i), ms[i]) else a[Start(ms, i)] == NUL
  {
    assert i < |ms| ==> InPlace(a, ms, i);
  }

  lemma StillOpened(ms: seq<Member>, opens: string -> bool, i: nat)
    requires i <= Opened(ms, opens) && i < |ms|
    ensures if opens(ms[i].name) then i + 1 <= Opened(ms, opens) else i == Opened(ms, opens)
  {
    var n := Opened(ms, opens);
    if i < n { assert opens(ms[i].name); }
  }

  lemma TakeOneMore<T>(s: seq<T>, i: nat)
    requires i < |s|
    ensures s[..i] + [s[i]] == s[..i + 1]
  {
  }

  // One round of the loop, at the end block or at member m.
  method NextMember(tape: Tape, buf: array<char>, ghost last: bool, ghost m: Member)
      returns (end: bool, name: string, body: seq<char>)
    requires buf != tape.data && buf.Length == BUFFER && tape.pos + BLOCK <= tape.data.Length
    requires if last then tape.data[tape.pos] == NUL else MemberAt(tape.data[..], tape.pos, m)
    modifies tape`pos, buf
    ensures end <==> last
    ensures end ==> tape.pos == old(tape.pos) + BLOCK
    ensures !end ==> name == m.name && body == m.body && tape.pos == old(tape.pos) + Extent(m)
  {
    ghost var at, all := tape.pos, tape.data[..];
    tape.Read(buf, 512);
    assert buf[..BLOCK] == all[at..at + BLOCK];
    assert buf[0] == all[at];
    if !last { HeaderIsNotTheEnd(all[at..at + BLOCK], m); }
    name, body := [], [];
    if buf[0] == NUL { return true, name, body; }
    end := false;
    name, body := ExtractOne(tape, buf, m);
  }

  // kernel/main.c:19-53; complete unless a member could not be opened
  method ExtractAll(tape: Tape, opens: string -> bool, ghost ms: seq<Member>)
      returns (written: seq<Member>, complete: bool)
    requires tape.pos == 0 && Archive(tape.data[..], ms)
    modifies tape`pos
    ensures written == ms[..Opened(ms, opens)] && (complete <==> Opened(ms, opens) == |ms|)
    ensures complete ==> tape.pos == Start(ms, |ms|) + BLOCK
  {
    var buf := new char[BUFFER];
    written := [];
    ghost var i := 0;
    while true
      invariant fresh(buf) && buf.Length == BUFFER
      invariant i <= Opened(ms, opens) && tape.pos == Start(ms, i) && written == ms[..i]
      decreases |ms| - i
    {
      AtStart(tape.data[..], ms, i);
      if i < |ms| { StillOpened(ms, opens, i); TakeOneMore(ms, i); }
      var end, name, body := NextMember(tape, buf, i == |ms|, if i < |ms| then ms[i] else Member([], []));
      if end { return written, true; }
      assert Member(name, body) == ms[i];
      if !opens(name) { return written, false; }
      written := written + [Member(name, body)];
      i := i + 1;
    }
  }

  // kernel/main.c:13-60.  Every member is written out as it is, in order, up
  // to one that cannot be opened; when all are, the first byte is set to zero,
  // and the archive holds nothing that would be extracted once more.
  method Untar(data: array<char>, opens: string -> bool, ghost ms: seq<Member>) returns (written: seq<Member>, pos: nat)
    requires Archive(data[..], ms)
    modifies data
    ensures written == ms[..Opened(ms, opens)]
    ensures Opened(ms, opens) == |ms| ==> pos == Start(ms, |ms|) + BLOCK && Archive(data[..], [])
    ensures data[..] == if ms != [] && Opened(ms, opens) == |ms| then old(data[..])[0 := NUL] else old(data[..])
  {
    var tape := new Tape(data);
    var complete;
    written, complete := ExtractAll(tape, opens, ms);
    pos := tape.pos;
    if complete && written != [] {
      data[0] := NUL;
    }
  }

  // --------------------------------------------------------------- packing

  function Zeros(n: nat): (z: seq<char>)
    ensures |z| == n && forall i :: 0 <= i < n ==> z[i] == NUL
  {
    seq(n, i => NUL)
  }

  function Pow8(k: nat): nat { if k == 0 then 1 else 8 * Pow8(k - 1) }

  // n in k octal digits
  function OctalDigits(n: nat, k: nat): (s: string)
    ensures |s| == k && IsOctal(s)
  {
    if k == 0 then [] else OctalDigits(n / 8, k - 1) + [('0' as int + n % 8) as char]
  }

  lemma {:induction false} OctalRoundTrip(n: nat, k: nat)
    requires n < Pow8(k)
    ensures OctalValue(OctalDigits(n, k)) == n
  {
    if k > 0 {
      OctalRoundTrip(n / 8, k - 1);
      assert OctalDigits(n, k)[..k - 1] == OctalDigits(n / 8, k - 1);
    }
  }

  predicate Packable(m: Member) {
    m.name != [] && |m.name| < NAME_LEN && NUL !in m.name && |m.body| < Pow8(SIZE_LEN - 1)
  }

  function Header(m: Member): (h: seq<char>)
    requires Packable(m)
    ensures |h| == BLOCK
  {
    m.name + Zeros(SIZE_OFFSET - |m.name|) + OctalDigits(|m.body|, SIZE_LEN - 1)
      + Zeros(BLOCK - SIZE_OFFSET - SIZE_LEN + 1)
  }

  lemma HeaderIsHeader(m: Member)
    requires Packable(m)
    ensures IsHeader(Header(m), m)
  {
    var h, k := Header(m), SIZE_LEN - 1;
    OctalRoundTrip(|m.body|, k);
    assert h[0..|m.name|] == m.name;
    assert h[SIZE_OFFSET..SIZE_OFFSET + k] == OctalDigits(|m.body|, k);
    assert SizeField(h, k, |m.body|);
  }

  function PackOne(m: Member): (a: seq<char>)
    requires Packable(m)
    ensures |a| == Extent(m)
  {
    assert |m.body| <= Padded(|m.body|);
    Header(m) + m.body + Zeros(Padded(|m.body|) - |m.body|)
  }

  // The members one after the other, without the end block.
  function Pack(ms: seq<Member>): (a: seq<char>)
    requires forall i :: 0 <= i < |ms| ==> Packable(ms[i])
    ensures |a| == Start(ms, |ms|)
  {
    if ms == [] then []
    else
      var front := ms[..|ms| - 1];
      SameStart(ms, |ms| - 1);
      Pack(front) + PackOne(ms[|ms| - 1])
  }

  lemma {:induction false} SameStart(ms: seq<Member>, i: nat)
    requires ms != [] && i <= |ms| - 1
    ensures Start(ms[..|ms| - 1], i) == Start(ms, i)
  {
    if i > 0 { SameStart(ms, i - 1); }
  }

  lemma MemberAtMore(a: seq<char>, b: seq<char>, at: nat, m: Member)
    requires MemberAt(a, at, m)
    ensures MemberAt(a + b, at, m)
  {
    SliceOfFront(a, b, at, at + BLOCK);
    SliceOfFront(a, b, at + BLOCK, at + BLOCK + |m.body|);
  }

  lemma SliceOfFront(a: seq<char>, b: seq<char>, lo: nat, hi: nat)
    requires lo <= hi <= |a|
    ensures (a + b)[lo..hi] == a[lo..hi]
  {
  }

  lemma PackedOne(a: seq<char>, m: Member)
    requires Packable(m)
    ensures MemberAt(a + PackOne(m), |a|, m)
  {
    var b := a + PackOne(m);
    HeaderIsHeader(m);
    assert |m.body| <= Padded(|m.body|);
    assert b[|a|..|a| + BLOCK] == Header(m);
    assert b[|a| + BLOCK..|a| + BLOCK + |m.body|] == m.body;
  }

  lemma FrontInPlace(a: seq<char>, b: seq<char>, ms: seq<Member>, i: nat)
    requires i < |ms| - 1 && InPlace(a, ms[..|ms| - 1], i)
    ensures InPlace(a + b, ms, i)
  {
    SameStart(ms, i);
    MemberAtMore(a, b, Start(ms, i), ms[i]);
  }

  lemma {:induction false} PackedInPlace(ms: seq<Member>, i: nat)
    requires (forall j :: 0 <= j < |ms| ==> Packable(ms[j])) && i < |ms|
    ensures InPlace(Pack(ms), ms, i)
    decreases |ms|
  {
    var front, m := ms[..|ms| - 1], ms[|ms| - 1];
    SameStart(ms, |front|);
    assert Pack(ms) == Pack(front) + PackOne(m);
    if i < |front| {
      PackedInPlace(front, i);
      FrontInPlace(Pack(front), PackOne(m), ms, i);
    } else {
      PackedOne(Pack(front), m);
    }
  }

  // What is packed is an archive; untar brings back the members.
  lemma PackIsArchive(ms: seq<Member>)
    requires forall i :: 0 <= i < |ms| ==> Packable(ms[i])
    ensures Archive(Pack(ms) + Zeros(BLOCK), ms)
  {
    forall i | 0 <= i < |ms| ensures InPlace(Pack(ms) + Zeros(BLOCK), ms, i) {
      PackedInPlace(ms, i);
      MemberAtMore(Pack(ms), Zeros(BLOCK), Start(ms, i), ms[i]);
    }
  }
}
