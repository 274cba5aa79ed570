// Cutting the byte stream of a connection into pipelined requests.
//
// The peer's bytes are a fixed string; recv hands them over in pieces of any
// size.  The request boundaries are shown not to depend on the pieces.

module HttpFraming {
  import opened Common

  // ---------- Where a request head ends ------------------------------------

  // Control characters are not allowed in a head; bytes from 128 up are.
  predicate Bad(c: char) {
    !(32 <= c as int < 127) && c != '\r' && c != '\n' && c as int < 128
  }

  // Behind an end of line at `i`, an empty line ends at the result; 0 if not.
  function BlankLine(b: string, i: nat): (n: nat)
    requires i < |b|
    ensures n == 0 || i + 2 <= n <= |b|
  {
    if b[i] == '\n' && i + 1 < |b| && b[i + 1] == '\n' then i + 2
    else if b[i] == '\n' && i + 2 < |b| && b[i + 1] == '\r' && b[i + 2] == '\n' then i + 3
    else 0
  }

  // The scan: -1 for a malformed head, 0 for an unfinished one, else its
  // length.  The last byte is not looked at by itself.
  function ScanFrom(b: string, i: nat): (n: int)
    requires i <= |b|
    ensures n == -1 || n == 0 || i + 2 <= n <= |b|
    decreases |b| - i
  {
    if i + 1 >= |b| then 0
    else if Bad(b[i]) then -1
    else if BlankLine(b, i) > 0 then BlankLine(b, i)
    else ScanFrom(b, i + 1)
  }

  function RequestLen(b: string): (n: int)
    ensures n == -1 || n == 0 || 2 <= n <= |b|
  {
    ScanFrom(b, 0)
  }

  // Nothing before `k` ends the scan: no bad character and no empty line.
  predicate Quiet(b: string, i: nat, k: nat)
    requires k <= |b|
  {
    forall j | i <= j < k :: !Bad(b[j]) && BlankLine(b, j) == 0
  }

  // The head ends with the first empty line that no bad character precedes,
  lemma {:induction false} ScanFindsTheEnd(b: string, i: nat, n: nat)
    requires i <= |b| && n > 0
    ensures ScanFrom(b, i) == n <==>
      exists k: nat :: i <= k < |b| - 1 && Quiet(b, i, k) && !Bad(b[k]) && BlankLine(b, k) == n
    decreases |b| - i
  {
    if i + 1 < |b| {
      assert Quiet(b, i, i);
      if !Bad(b[i]) && BlankLine(b, i) == 0 {
        ScanFindsTheEnd(b, i + 1, n);
        forall k: nat | i <= k < |b| - 1 ensures k > i ==> Quiet(b, i, k) == Quiet(b, i + 1, k) {}
      }
    }
  }

  // and it is malformed when a bad character comes first.
  lemma {:induction false} ScanRefuses(b: string, i: nat)
    requires i <= |b|
    ensures ScanFrom(b, i) == -1 <==> exists k: nat :: i <= k < |b| - 1 && Quiet(b, i, k) && Bad(b[k])
    decreases |b| - i
  {
    if i + 1 < |b| {
      assert Quiet(b, i, i);
      if !Bad(b[i]) && BlankLine(b, i) == 0 {
        ScanRefuses(b, i + 1);
        forall k: nat | i <= k < |b| - 1 ensures k > i ==> Quiet(b, i, k) == Quiet(b, i + 1, k) {}
      }
    }
  }

  // In terms of the text alone: a head ends with an empty line, and lines end
  // with a line feed, or a carriage return and a line feed.
  predicate EndsHead(h: string) {
    || (|h| >= 2 && h[|h| - 2] == '\n' && h[|h| - 1] == '\n')
    || (|h| >= 3 && h[|h| - 3] == '\n' && h[|h| - 2] == '\r' && h[|h| - 1] == '\n')
  }

  predicate Allowed(c: char) { c == '\r' || c == '\n' || ' ' <= c <= '~' || c as int >= 128 }

  // The first n bytes are the shortest prefix that ends a head, and there is no
  // control character in it.
  ghost predicate IsHead(b: string, n: nat) {
    && n <= |b| && EndsHead(b[..n]) && (forall i | 0 <= i < n :: Allowed(b[i]))
    && forall m | 0 <= m < n :: !EndsHead(b[..m])
  }

  // The length found is that of the head,
  lemma LengthOfHead(b: string, n: nat)
    requires n > 0
    ensures RequestLen(b) == n <==> IsHead(b, n)
  {
    ScanFindsTheEnd(b, 0, n);
    if RequestLen(b) == n {
      var k: nat :| k < |b| - 1 && Quiet(b, 0, k) && !Bad(b[k]) && BlankLine(b, k) == n;
      QuietHead(b, k, n);
    }
    if IsHead(b, n) {
      var k := StartOfEnd(b, n);
      NothingEarlier(b, k, n);
      assert !Bad(b[k]);
    }
  }

  lemma QuietHead(b: string, k: nat, n: nat)
    requires k < |b| && Quiet(b, 0, k) && !Bad(b[k]) && 0 < n == BlankLine(b, k)
    ensures IsHead(b, n)
  {
    EndsWhere(b, k);
    forall m | 0 <= m < n ensures !EndsHead(b[..m]) {
      if EndsHead(b[..m]) {
        var j := StartOfEnd(b, m);
      }
    }
  }

  lemma NothingEarlier(b: string, k: nat, n: nat)
    requires k + 2 <= n <= |b| && (forall i | 0 <= i < k :: Allowed(b[i])) && b[k] == '\n'
    requires n <= k + 3 && forall m | 0 <= m < n :: !EndsHead(b[..m])
    ensures Quiet(b, 0, k)
  {
    forall j | 0 <= j < k ensures BlankLine(b, j) == 0 {
      EndsWhere(b, j);
    }
  }

  // and a head is refused when a control character comes before its end and
  // is not the last byte there is.
  lemma RefusedHead(b: string)
    ensures RequestLen(b) == -1 <==>
      exists k: nat :: k < |b| - 1 && !Allowed(b[k]) && (forall j | 0 <= j < k :: Allowed(b[j]))
                       && forall m | 0 <= m <= k :: !EndsHead(b[..m])
  {
    ScanRefuses(b, 0);
    if RequestLen(b) == -1 {
      var k: nat :| k < |b| - 1 && Quiet(b, 0, k) && Bad(b[k]);
      forall m | 0 <= m <= k && EndsHead(b[..m]) ensures false {
        var j := StartOfEnd(b, m);
      }
    }
    if k: nat :| k < |b| - 1 && !Allowed(b[k]) && (forall j | 0 <= j < k :: Allowed(b[j]))
                 && forall m | 0 <= m <= k :: !EndsHead(b[..m]) {
      forall j | 0 <= j < k ensures BlankLine(b, j) == 0 {
        EndsWhere(b, j);
      }
      assert Quiet(b, 0, k);
    }
  }

  lemma EndsWhere(b: string, j: nat)
    requires j < |b|
    ensures BlankLine(b, j) > 0 ==> EndsHead(b[..BlankLine(b, j)]) && forall i | j <= i < BlankLine(b, j) :: Allowed(b[i])
  {
  }

  lemma StartOfEnd(b: string, m: nat) returns (j: nat)
    requires m <= |b| && EndsHead(b[..m])
    ensures j + 2 <= m <= j + 3 && BlankLine(b, j) == m && b[j] == '\n' && (m == j + 3 ==> b[j + 1] == '\r')
  {
    j := if b[m - 2] == '\n' then m - 2 else m - 3;
  }

  // What the scan finds in a prefix it finds in every longer text.
  lemma {:induction false} ScanStable(b: string, c: string, i: nat)
    requires b <= c && i <= |b| && ScanFrom(b, i) != 0
    ensures ScanFrom(c, i) == ScanFrom(b, i)
    decreases |b| - i
  {
    assert forall j | 0 <= j < |b| :: c[j] == b[j];
    if !Bad(b[i]) && BlankLine(b, i) == 0 {
      ScanStable(b, c, i + 1);
      assert BlankLine(c, i) == 0 by { NotBlankYet(b, c, i); }
    }
  }

  lemma SameLengthInLonger(b: string, c: string)
    requires b <= c && RequestLen(b) != 0
    ensures RequestLen(c) == RequestLen(b)
  {
    ScanStable(b, c, 0);
  }

  // Nothing new can appear at a place from which the scan went on.
  lemma NotBlankYet(b: string, c: string, i: nat)
    requires b <= c && i + 1 < |b| && BlankLine(b, i) == 0 && ScanFrom(b, i + 1) != 0
    ensures BlankLine(c, i) == 0
  {
    assert i + 2 < |b|;
    assert forall j | 0 <= j < |b| :: c[j] == b[j];
  }

  method GetRequestLen(buf: array<char>, buflen: nat) returns (len: int)
    requires buflen <= buf.Length
    ensures len == RequestLen(buf[..buflen])
  {
    len := 0;
    var s := 0;
    while len <= 0 && s + 1 < buflen
      invariant 0 <= s <= buflen
      invariant len > 0 ==> len == RequestLen(buf[..buflen])
      invariant len <= 0 ==> len == 0 && ScanFrom(buf[..buflen], s) == RequestLen(buf[..buflen])
      decreases buflen - s, if len <= 0 then 1 else 0
    {
      var c := buf[s];
      if !(32 <= c as int < 127) && c != '\r' && c != '\n' && c as int < 128 {
        return -1;
      } else if c == '\n' && buf[s + 1] == '\n' {
        len := s + 2;
      } else if c == '\n' && s + 2 < buflen && buf[s + 1] == '\r' && buf[s + 2] == '\n' {
        len := s + 3;
      }
      s := s + 1;
    }
  }

  method Copy(dst: array<char>, off: nat, text: string)
    requires off + |text| <= dst.Length
    modifies dst
    ensures dst[..off] == old(dst[..off]) && dst[off..off + |text|] == text
  {
    var i := 0;
    while i < |text|
      invariant i <= |text|
      invariant forall j | 0 <= j < off :: dst[j] == old(dst[j])
      invariant dst[off..off + i] == text[..i]
    {
      dst[off + i] := text[i];
      i := i + 1;
    }
  }

  // ---------- A connection ----------------------------------------------------

  class Connection {
    const stream: string             // all that the peer sends
    const contentLenOf: string -> int  // Content-Length of a head, or -1
    const accepts: string -> bool    // method and version of a head are right
    const keepAlive: string -> bool  // what a head and the options say about going on
    const buf: array<char>

    var received: nat                // how much of the stream recv has delivered
    var dataLen: nat
    var requestLen: int
    var contentLen: int
    var consumed: nat                // consumed_content
    var goOn: bool                   // what the parsed request says about going on
    var mustClose: bool              // the handler closed or sent a 401
    var stopping: bool               // stop_flag has been seen set

    ghost var base: nat              // where in the stream buf[0] belongs
    ghost var readBody: string       // what mg_read returned for this request
    ghost var failed: bool           // an mg_read of this request returned an error
    ghost var log: seq<Served>       // the requests served so far
    ghost var pulls: nat             // how often recv was called
    ghost var dry: bool              // the last time it gave nothing

    constructor (stream: string, contentLenOf: string -> int, accepts: string -> bool, keepAlive: string -> bool, size: nat)
      ensures fresh(buf) && buf.Length == size && this.stream == stream && this.contentLenOf == contentLenOf
      ensures this.accepts == accepts && this.keepAlive == keepAlive
      ensures InSync() && base == 0 && log == [] && !dry
    {
      this.stream, this.contentLenOf, this.accepts, this.keepAlive := stream, contentLenOf, accepts, keepAlive;
      goOn, mustClose, stopping := false, false, false;
      buf := new char[size];
      received, dataLen, requestLen, contentLen, consumed := 0, 0, 0, 0, 0;
      base, readBody, failed, log, pulls, dry := 0, "", false, [], 0, false;
    }

    // Between requests: the buffer holds the stream from `base` on.
    ghost predicate InSync()
      reads this`dataLen, this`received, this`base, buf
    {
      && dataLen <= buf.Length && received == base + dataLen <= |stream|
      && buf[..dataLen] == stream[base..received]
    }

    // A head has been read.  Its bytes may have been overwritten by the
    // parser; the body bytes behind it are those of the stream.
    ghost predicate HoldsHead()
      reads this`base, this`requestLen, this`dataLen, this`contentLen, buf
    {
      && dataLen <= buf.Length && 0 < requestLen <= dataLen && base + dataLen <= |stream|
      && requestLen == RequestLen(stream[base..])
      && contentLen == contentLenOf(stream[base..base + requestLen])
      && buf[requestLen..dataLen] == stream[base + requestLen..base + dataLen]
    }

    // Bytes are taken from the socket only when the buffer has been read out.
    ghost predicate Counted()
      reads this`requestLen, this`dataLen, this`contentLen, this`consumed, this`base, this`received
    {
      && 0 < requestLen <= dataLen <= buf.Length && consumed <= Max(contentLen, 0)
      && received == base + Max(dataLen, requestLen + consumed) <= |stream|
    }

    ghost predicate HasBody()
      reads this`requestLen, this`dataLen, this`contentLen, this`consumed, this`base, this`received, buf
    {
      HoldsHead() && Counted()
    }

    ghost predicate HasRequest()
      reads this`requestLen, this`dataLen, this`contentLen, this`consumed, this`base, this`received
      reads this`readBody, this`failed, buf
    {
      HasBody() && (!failed ==> readBody == stream[BodyAt(0)..BodyAt(consumed)])
    }

    // Where in the stream the k-th byte of the body is.
    ghost function BodyAt(k: nat): (at: nat)
      requires requestLen > 0
      reads this`base, this`requestLen
    {
      base + requestLen + k
    }

    // No request can be cut from the stream: it is malformed, does not fit the
    // buffer, or recv gives nothing more.
    ghost predicate NothingToRead()
      reads this`requestLen, this`dataLen, this`received, this`base, this`dry, buf
    {
      && requestLen <= 0 && InSync() && RequestLen(buf[..dataLen]) <= 0
      && (RequestLen(buf[..dataLen]) < 0 || dataLen == buf.Length || dry)
    }

    ghost predicate Refused()
      reads this`requestLen, this`base
    {
      && 0 < requestLen && base + requestLen <= |stream| && requestLen == RequestLen(stream[base..])
      && !accepts(stream[base..base + requestLen])
    }

    // The body is in the buffer altogether or has been read to its end.
    ghost predicate Drained()
      reads this`requestLen, this`contentLen, this`dataLen, this`consumed
    {
      requestLen + contentLen <= dataLen || consumed == contentLen
    }

    // recv: an error, the end of input, or some of the bytes that come next.
    // When the server is being stopped the bytes are written, but an error is
    // reported: they are lost to the connection.
    method Pull(dst: array<char>, off: nat, len: nat) returns (n: int)
      requires off + len <= dst.Length && received <= |stream|
      modifies this`received, this`stopping, this`pulls, this`dry, dst
      ensures -1 <= n <= len && received == old(received) + Max(n, 0) <= |stream|
      ensures (old(stopping) ==> stopping) && (stopping ==> n == -1)
      ensures pulls == old(pulls) + 1 && (dry <==> n <= 0)
      ensures n > 0 ==> dst[off..off + n] == stream[old(received)..received]
      ensures dst[..off] == old(dst[..off])
    {
      n :| -1 <= n <= len && n <= |stream| - received;
      if n > 0 {
        Copy(dst, off, stream[received..received + n]);
      }
      var stop: bool := *;
      stopping := stopping || stop;
      if stopping {
        n := -1;
      } else {
        received := received + Max(n, 0);
      }
      pulls, dry := pulls + 1, n <= 0;
    }

    // One recv into the free part of the buffer.
    method Receive() returns (n: int)
      requires InSync() && dataLen < buf.Length
      modifies this`received, this`dataLen, this`stopping, this`pulls, this`dry, buf
      ensures InSync() && dataLen == old(dataLen) + Max(n, 0)
      ensures pulls == old(pulls) + 1 && (dry <==> n <= 0)
      ensures n <= 0 ==> buf[..dataLen] == old(buf[..dataLen])
    {
      n := Pull(buf, dataLen, buf.Length - dataLen);
      if n > 0 {
        Glue(stream, base, base + dataLen, received);
        assert buf[..dataLen + n] == buf[..dataLen] + buf[dataLen..dataLen + n];
        dataLen := dataLen + n;
      }
    }

    // Read until the buffer holds a whole head, is full, or nothing comes.
    method ReadRequest() returns (r: int)
      requires InSync()
      modifies this`received, this`dataLen, this`stopping, this`pulls, this`dry, buf
      ensures InSync()
      ensures old(RequestLen(buf[..dataLen])) != 0 ==> received == old(received)
      ensures r < 0 ==> RequestLen(buf[..dataLen]) < 0 || dataLen == buf.Length || (dry && pulls > old(pulls))
      ensures r > 0 ==> r == RequestLen(buf[..dataLen]) && r == RequestLen(stream[base..])
      ensures r <= 0 ==> RequestLen(buf[..dataLen]) <= 0 && r >= -1
      ensures r == 0 ==> dataLen == buf.Length
    {
      hide RequestLen, InSync;
      DataFits();
      var n := 0;
      r := GetRequestLen(buf, dataLen);
      while dataLen < buf.Length && r == 0
        invariant InSync() && dataLen <= buf.Length && r == RequestLen(buf[..dataLen])
        invariant n >= 0 && pulls >= old(pulls) && (n == 0 ==> pulls == old(pulls))
        invariant old(RequestLen(buf[..dataLen])) != 0 ==> received == old(received) && r != 0
        decreases buf.Length - dataLen
      {
        n := Receive();
        DataFits();
        if n <= 0 { break; }
        r := GetRequestLen(buf, dataLen);
      }
      SameInStream();
      r := if r <= 0 && n <= 0 then -1 else r;
    }

    lemma DataFits()
      requires InSync()
      ensures dataLen <= buf.Length
    {
    }

    // The length of a head in the buffer is that of a head in the stream.
    lemma SameInStream()
      requires InSync()
      ensures base <= |stream| && dataLen <= buf.Length
      ensures RequestLen(buf[..dataLen]) > 0 ==> RequestLen(stream[base..]) == RequestLen(buf[..dataLen])
    {
      if RequestLen(buf[..dataLen]) > 0 {
        hide RequestLen;
        Glue(stream, base, received, |stream|);
        SameLengthInLonger(buf[..dataLen], stream[base..]);
      }
    }

    // The parser ends the parts of the head with null bytes, in the buffer.
    method TerminateParts()
      requires 0 < requestLen <= buf.Length
      modifies buf
      ensures forall j | requestLen <= j < buf.Length :: buf[j] == old(buf[j])
    {
      buf[requestLen - 1] := '\0';
      var parts: nat := *;
      while parts > 0
        invariant forall j | requestLen <= j < buf.Length :: buf[j] == old(buf[j])
      {
        var at: nat :| at < requestLen;
        buf[at] := '\0';
        parts := parts - 1;
      }
    }

    // The parser looks for the end of the head a second time, now in the
    // whole buffer with whatever bytes lie behind the data.
    method ParseHead() returns (ok: bool)
      requires InSync() && requestLen > 0 && consumed == 0
      requires requestLen == RequestLen(buf[..dataLen]) == RequestLen(stream[base..])
      modifies this`contentLen, this`goOn, buf
      ensures HasBody()
      ensures ok == accepts(stream[base..base + requestLen])
      ensures goOn == keepAlive(stream[base..base + requestLen])
    {
      hide RequestLen, ScanFrom;
      SameEndEverywhere();
      var again := GetRequestLen(buf, buf.Length);
      assert again == requestLen by { assert buf[..buf.Length] == buf[..]; }
      HeadAndBody();
      ghost var body := buf[requestLen..dataLen];
      contentLen, goOn, ok := contentLenOf(buf[..requestLen]), keepAlive(buf[..requestLen]), accepts(buf[..requestLen]);
      TerminateParts();
      assert buf[requestLen..dataLen] == body;
    }

    lemma HeadAndBody()
      requires InSync() && 0 <= requestLen <= dataLen
      ensures base + requestLen <= |stream| && buf[..requestLen] == stream[base..base + requestLen]
      ensures buf[requestLen..dataLen] == stream[base + requestLen..base + dataLen]
    {
      var all, data := buf[..], stream[base..received];
      assert all[..dataLen] == data;
      SliceOfSlice(all, 0, dataLen, requestLen, dataLen - requestLen);
      SliceOfSlice(all, 0, dataLen, 0, requestLen);
      SliceOfSlice(stream, base, received, requestLen, dataLen - requestLen);
      SliceOfSlice(stream, base, received, 0, requestLen);
    }

    lemma SameEndEverywhere()
      requires dataLen <= buf.Length && requestLen == RequestLen(buf[..dataLen]) > 0
      ensures RequestLen(buf[..]) == requestLen
    {
      SameLengthInLonger(buf[..dataLen], buf[..]);
    }

    // Forget the last request and look for the head of the next.
    method FindHead()
      requires InSync()
      modifies this`received, this`dataLen, this`requestLen, this`consumed, this`readBody, this`failed
      modifies this`mustClose, this`stopping, this`pulls, this`dry, buf
      ensures InSync() && dataLen <= buf.Length
      ensures consumed == 0 && readBody == "" && !failed
      ensures old(RequestLen(buf[..dataLen])) != 0 ==> received == old(received)
      ensures requestLen <= 0 ==> NothingToRead()
      ensures requestLen > 0 ==> requestLen == RequestLen(buf[..dataLen]) == RequestLen(stream[base..])
      ensures requestLen <= 0 && RequestLen(buf[..dataLen]) == 0 && dataLen < buf.Length ==> pulls > old(pulls)
    {
      hide RequestLen, ScanFrom;
      consumed, mustClose, requestLen := 0, false, 0;
      readBody, failed := "", false;
      requestLen := ReadRequest();
    }

    method GetReq() returns (ok: bool)
      requires InSync()
      modifies this`received, this`dataLen, this`requestLen, this`contentLen, this`consumed
      modifies this`readBody, this`failed, this`goOn, this`mustClose, this`stopping, this`pulls, this`dry, buf
      ensures old(RequestLen(buf[..dataLen])) != 0 ==> received == old(received)
      ensures !ok ==> NothingToRead() || Refused()
      ensures !ok && NothingToRead() && RequestLen(buf[..dataLen]) == 0 && dataLen < buf.Length ==> pulls > old(pulls)
      ensures dataLen <= buf.Length
      ensures ok ==> HasRequest() && consumed == 0 && readBody == "" && !failed
      ensures ok ==> accepts(stream[base..base + requestLen])
      ensures ok ==> goOn == keepAlive(stream[base..base + requestLen])
    {
      hide RequestLen, ScanFrom, HoldsHead;
      FindHead();
      if requestLen <= 0 { return false; }
      ok := ParseHead();
      HeadInStream();
    }

    lemma HeadInStream()
      requires HasBody()
      ensures dataLen <= buf.Length && 0 < requestLen && base + requestLen <= |stream|
      ensures requestLen == RequestLen(stream[base..])
    {
    }

    lemma BodyInBuffer(n: nat)
      requires HoldsHead() && requestLen + consumed + n <= dataLen
      ensures buf[requestLen + consumed..requestLen + consumed + n] == stream[BodyAt(consumed)..BodyAt(consumed + n)]
    {
      hide RequestLen;
      SliceOfSlice(buf[..], requestLen, dataLen, consumed, n);
      SliceOfSlice(stream, base + requestLen, base + dataLen, consumed, n);
    }

    // Body bytes that came in with the head.
    method TakeBuffered(dst: array<char>, want: nat) returns (n: nat)
      requires HasBody() && want <= dst.Length && consumed + want <= contentLen && dst != buf
      modifies this`consumed, dst
      ensures HasBody() && n <= want && consumed == old(consumed) + n
      ensures dst[..n] == stream[BodyAt(old(consumed))..BodyAt(consumed)]
      ensures n == want || base + dataLen <= BodyAt(consumed)
      ensures n == 0 ==> want == 0 || base + dataLen <= BodyAt(consumed)
    {
      hide HoldsHead;
      n := 0;
      var from := requestLen + consumed;
      if dataLen - from > 0 {
        n := if want < dataLen - from then want else dataLen - from;
        BodyInBuffer(n);
        Copy(dst, 0, buf[from..from + n]);
        consumed := consumed + n;
      }
    }

    // One recv for the body, behind the n bytes already in `dst`.
    method TakeSome(dst: array<char>, n: nat, want: nat) returns (k: int)
      requires HasBody() && n < want <= dst.Length && consumed + want - n <= contentLen && dst != buf
      requires base + dataLen <= BodyAt(consumed)
      modifies this`received, this`consumed, this`stopping, this`pulls, this`dry, dst
      ensures HasBody() && -1 <= k <= want - n && consumed == old(consumed) + Max(k, 0)
      ensures pulls == old(pulls) + 1 && (dry <==> k <= 0)
      ensures dst[..n] == old(dst[..n])
      ensures k > 0 ==> dst[n..n + k] == stream[BodyAt(old(consumed))..BodyAt(consumed)]
    {
      hide HoldsHead;
      k := Pull(dst, n, want - n);
      consumed := consumed + Max(k, 0);
    }

    // The rest from the socket, behind the bytes already in `dst`.
    method TakeFromSocket(dst: array<char>, got: nat, want: nat) returns (n: int)
      requires HasBody() && got <= want <= dst.Length && consumed + want - got <= contentLen && dst != buf
      requires got < want ==> base + dataLen <= BodyAt(consumed)
      modifies this`received, this`consumed, this`stopping, this`pulls, this`dry, dst
      ensures HasBody() && dst[..got] == old(dst[..got])
      ensures n < want ==> dry && pulls > old(pulls)
      ensures n >= 0 ==> got <= n <= want && consumed == old(consumed) + n - got
      ensures n >= 0 ==> dst[got..n] == stream[BodyAt(old(consumed))..BodyAt(consumed)]
      ensures n < 0 ==> consumed >= old(consumed)
    {
      InsideStream();
      hide HoldsHead, Counted, HasBody;
      n := got;
      while n < want
        invariant got <= n <= want && consumed == old(consumed) + n - got && HasBody() && pulls >= old(pulls)
        invariant n < want ==> base + dataLen <= BodyAt(consumed)
        invariant BodyAt(consumed) <= |stream| && dst[..got] == old(dst[..got])
        invariant dst[got..n] == stream[BodyAt(old(consumed))..BodyAt(consumed)]
        decreases want - n
      {
        ghost var from := BodyAt(consumed);
        var k := TakeSome(dst, n, want);
        InsideStream();
        if k < 0 {
          return k;
        } else if k == 0 {
          break;
        }
        assert dst[got..n + k] == dst[got..n] + dst[n..n + k];
        Glue(stream, BodyAt(old(consumed)), from, BodyAt(consumed));
        n := n + k;
      }
    }

    lemma InsideStream()
      requires HasBody()
      ensures requestLen > 0 && BodyAt(consumed) <= |stream|
    {
    }

    method TakeBody(dst: array<char>, want: nat) returns (n: int)
      requires HasBody() && want <= dst.Length && consumed + want <= contentLen && dst != buf
      modifies this`received, this`consumed, this`stopping, this`pulls, this`dry, dst
      ensures HasBody()
      ensures n < want ==> dry && pulls > old(pulls)
      ensures n >= 0 ==> n <= want && consumed == old(consumed) + n
      ensures n >= 0 ==> dst[..n] == stream[BodyAt(old(consumed))..BodyAt(consumed)]
      ensures n < 0 ==> consumed >= old(consumed)
    {
      hide HoldsHead;
      var got := TakeBuffered(dst, want);
      ghost var mid := BodyAt(consumed);
      n := TakeFromSocket(dst, got, want);
      if n >= 0 {
        assert dst[..n] == dst[..got] + dst[got..n];
        Glue(stream, BodyAt(old(consumed)), mid, BodyAt(consumed));
      }
    }

    // The next `len` bytes of the body, from the buffer first and then from
    // the socket; fewer only at the end of the body or when recv gives nothing.
    method MgRead(dst: array<char>, len: nat) returns (nread: int)
      requires HasRequest() && len <= dst.Length && dst != buf
      modifies this`received, this`consumed, this`readBody, this`failed, this`stopping, this`pulls, this`dry, dst
      ensures HasRequest()
      ensures nread < len && nread < Max(contentLen - old(consumed), 0) ==> dry && pulls > old(pulls)
      ensures nread >= 0 ==> nread <= len && consumed == old(consumed) + nread && failed == old(failed)
      ensures nread >= 0 ==> dst[..nread] == stream[BodyAt(old(consumed))..BodyAt(consumed)]
      ensures nread >= 0 ==> readBody == old(readBody) + dst[..nread]
      ensures nread < 0 ==> failed && consumed >= old(consumed)
    {
      hide HoldsHead;
      nread := 0;
      if consumed < contentLen {
        nread := TakeBody(dst, if contentLen - consumed < len then contentLen - consumed else len);
        if nread < 0 {
          failed := true;
        } else {
          Glue(stream, BodyAt(0), BodyAt(old(consumed)), BodyAt(consumed));
          readBody := readBody + dst[..nread];
        }
      }
    }

    // Drop the request from the buffer and move what lies behind it to the
    // front.  The next request begins where this one ends if, and only if,
    // its body was in the buffer or has been read to the end.
    method Discard()
      requires HasRequest()
      modifies this`dataLen, this`base, buf
      ensures InSync() && base >= old(base) + requestLen
      ensures contentLen >= 0 ==> (base == old(base) + requestLen + contentLen <==> old(Drained()))
    {
      var discard := if contentLen >= 0 && requestLen + contentLen < dataLen
                     then requestLen + contentLen else dataLen;
      RestInBuffer(discard);
      hide HoldsHead;
      MoveDown(discard);
      dataLen := dataLen - discard;
      base := received - dataLen;
    }

    lemma RestInBuffer(from: nat)
      requires HoldsHead() && requestLen <= from <= dataLen
      ensures buf[from..dataLen] == stream[base + from..base + dataLen]
    {
      hide RequestLen;
      SliceOfSlice(buf[..], requestLen, dataLen, from - requestLen, dataLen - from);
      SliceOfSlice(stream, base + requestLen, base + dataLen, from - requestLen, dataLen - from);
    }

    // memmove
    method MoveDown(gap: nat)
      requires gap <= dataLen <= buf.Length
      modifies buf
      ensures buf[..dataLen - gap] == old(buf[gap..dataLen])
    {
      var i := 0;
      while i < dataLen - gap
        invariant i <= dataLen - gap
        invariant forall j | 0 <= j < i :: buf[j] == old(buf[j + gap])
        invariant forall j | i <= j < buf.Length :: buf[j] == old(buf[j])
      {
        buf[i] := buf[i + gap];
        i := i + 1;
      }
    }

    // ---------- All the requests of a connection ------------------------------

    // Any handler: it reads as much of the body as it likes, in any pieces,
    // and may want the connection closed.
    method Handle()
      requires HasRequest()
      modifies this`received, this`consumed, this`readBody, this`failed, this`mustClose, this`stopping, this`pulls, this`dry
      ensures HasRequest()
    {
      var rounds: nat := *;
      while rounds > 0
        invariant HasRequest()
      {
        var len :| 0 <= len;
        var dst := new char[len];
        var n := MgRead(dst, len);
        rounds := rounds - 1;
      }
      mustClose := *;
    }

    // Serve requests until one cannot be read or is refused, or until one
    // after which the connection is not kept.  Only the last one is of that kind.
    method Process()
      requires InSync() && base == 0 && log == [] && !dry
      modifies this, buf
      ensures Faithful(log, stream, contentLenOf) && Admitted(log, stream, accepts) && Kept(log, stream, keepAlive)
      ensures NothingToRead() || Refused() || (log != [] && Leaves(log[|log| - 1], stream, keepAlive))
    {
      assert Faithful(log, stream, contentLenOf);
      assert Admitted(log, stream, accepts) && Kept(log, stream, keepAlive);
      hide Faithful, Leaves, Admitted, Kept, Welcome;
      var keep := true;
      while keep
        invariant Faithful(log, stream, contentLenOf) && Admitted(log, stream, accepts) && Kept(log, stream, keepAlive)
        invariant keep ==> InSync() && Follows(log, base)
        invariant keep ==> log == [] || !Leaves(log[|log| - 1], stream, keepAlive)
        invariant !keep ==> NothingToRead() || Refused() || (log != [] && Leaves(log[|log| - 1], stream, keepAlive))
        decreases |stream| - base, keep
      {
        ghost var before := log;
        var ok := ServeOne();
        if ok {
          KeptOneMore(before, log[|before|], stream, accepts, keepAlive);
        }
        keep := ok && !stopping && goOn && !mustClose && contentLen >= 0;
      }
    }

    method ServeOne() returns (ok: bool)
      requires InSync() && Faithful(log, stream, contentLenOf) && Follows(log, base)
      modifies this, buf
      ensures Faithful(log, stream, contentLenOf)
      ensures !ok ==> log == old(log) && base == old(base) && (NothingToRead() || Refused())
      ensures ok ==> InSync() && base > old(base) && (contentLen >= 0 ==> Follows(log, base))
      ensures ok ==> log != [] && log == old(log) + [log[|log| - 1]] && log[|log| - 1].start == old(base)
      ensures ok ==> Welcome(log[|log| - 1], stream, accepts)
      ensures ok ==> (Leaves(log[|log| - 1], stream, keepAlive) <==> contentLen < 0 || !goOn || mustClose || stopping)
    {
      hide Faithful, IsRequest, HoldsHead, HasBody, InSync;
      ok := GetReq();
      if ok {
        RequestFits();
        HandleAndDiscard();
      }
    }

    method HandleAndDiscard()
      requires HasRequest() && Faithful(log, stream, contentLenOf) && Follows(log, base)
      requires 0 < requestLen && base + requestLen <= |stream| && accepts(stream[base..base + requestLen])
      requires goOn == keepAlive(stream[base..base + requestLen])
      modifies this, buf
      ensures InSync() && base > old(base) && (contentLen >= 0 ==> Follows(log, base))
      ensures Faithful(log, stream, contentLenOf)
      ensures log != [] && log == old(log) + [log[|log| - 1]] && log[|log| - 1].start == old(base)
      ensures Welcome(log[|log| - 1], stream, accepts)
      ensures Leaves(log[|log| - 1], stream, keepAlive) <==> contentLen < 0 || !goOn || mustClose || stopping
    {
      hide *;
      RequestFits();
      Handle();
      stopping := NoticeStop();
      ghost var done := Record();
      RecordIs();
      Discard();
      OneMore(log, done, stream, contentLenOf);
      NowBehind(log, done, base);
      log := log + [done];
    }

    lemma RequestFits()
      requires HasRequest()
      ensures 0 < requestLen && base + requestLen <= |stream|
    {
    }

    // stop_flag as the loop sees it, set by another thread at any time.
    method NoticeStop() returns (stop: bool)
      ensures stopping ==> stop
    {
      var now: bool := *;
      stop := stopping || now;
    }

    lemma RecordIs()
      requires HasRequest()
      ensures base + requestLen <= |stream|
      ensures var e := Record();
        && IsRequest(e, stream, contentLenOf) && e.start == base && e.headLen == requestLen > 0
        && e.contentLen == contentLen && e.drained == Drained()
        && (Leaves(e, stream, keepAlive)
            <==> contentLen < 0 || mustClose || stopping || !keepAlive(stream[base..base + requestLen]))
        && (Welcome(e, stream, accepts) <==> accepts(stream[base..base + requestLen]))
    {
      hide HoldsHead;
    }

    ghost function Record(): (e: Served)
      requires HasRequest()
      reads this, buf
      ensures IsRequest(e, stream, contentLenOf)
    {
      Served(base, requestLen, contentLen, mustClose, stopping, Drained(), if failed then None else Some(readBody))
    }
  }

  // A body that fits neither the buffer nor the handler's interest: the buffer
  // holds the head only, nothing of the body is read, and what is taken for
  // the next request begins with the body.
  method UnreadBody() returns (c: Connection)
    ensures c.InSync() && c.base == 3 && Cut(c.stream, c.contentLenOf, 1) == 6
  {
    c := new Connection("A\n\nB\n\n", head => 3, head => true, head => true, 3);
    Copy(c.buf, 0, "A\n\n");
    c.received, c.dataLen := 3, 3;
    assert c.buf[..3] == "A\n\n" == c.stream[0..3];
    HeadOfThree(c.stream);
    hide RequestLen;
    var ok := c.GetReq();
    assert c.dataLen == 3 ==> !c.NothingToRead();
    c.Discard();
  }

  lemma HeadOfThree(s: string)
    requires s == "A\n\nB\n\n"
    ensures RequestLen(s[0..]) == 3 && RequestLen(s[0..3]) == 3
  {
    var b := s[0..3];
    assert b[0] == 'A' && b[1] == '\n' && b[2] == '\n' && s[0..] == s;
    assert ScanFrom(b, 1) == 3 && ScanFrom(s, 1) == 3;
    assert ScanFrom(b, 0) == 3 && ScanFrom(s, 0) == 3;
  }

  // ---------- What a run amounts to -------------------------------------------

  // One request: where it began, how long head and body are, whether the
  // handler wanted the connection closed, whether the server was being stopped,
  // whether the body was drained when the request was dropped, and what was
  // read of it.
  datatype Served = Served(start: nat, headLen: int, contentLen: int, closed: bool, stopped: bool, drained: bool,
                           read: Option<string>)

  ghost predicate IsRequest(e: Served, stream: string, contentLenOf: string -> int) {
    && e.start <= |stream| && 0 < e.headLen == RequestLen(stream[e.start..])
    && e.contentLen == contentLenOf(stream[e.start..e.start + e.headLen])
    && (e.read.Some? ==> |e.read.value| <= Max(e.contentLen, 0))
    && (e.read.Some? ==> e.read.value <= stream[e.start + e.headLen..])
  }

  // The connection is not kept after this request.
  ghost predicate Leaves(e: Served, stream: string, keepAlive: string -> bool) {
    e.contentLen < 0 || e.closed || e.stopped
    || (0 <= e.headLen && e.start + e.headLen <= |stream| && !keepAlive(stream[e.start..e.start + e.headLen]))
  }

  // The connection was kept after each request but the last.
  ghost predicate Kept(log: seq<Served>, stream: string, keepAlive: string -> bool) {
    forall i: nat | i < |log| - 1 :: !Leaves(log[i], stream, keepAlive)
  }

  // The method and the version of the head were right.
  ghost predicate Welcome(e: Served, stream: string, accepts: string -> bool) {
    0 <= e.headLen && e.start + e.headLen <= |stream| && accepts(stream[e.start..e.start + e.headLen])
  }

  ghost predicate Admitted(log: seq<Served>, stream: string, accepts: string -> bool) {
    forall i: nat | i < |log| :: Welcome(log[i], stream, accepts)
  }

  lemma KeptOneMore(log: seq<Served>, e: Served, stream: string, accepts: string -> bool, keepAlive: string -> bool)
    requires Kept(log, stream, keepAlive) && (log == [] || !Leaves(log[|log| - 1], stream, keepAlive))
    requires Admitted(log, stream, accepts) && Welcome(e, stream, accepts)
    ensures Kept(log + [e], stream, keepAlive) && Admitted(log + [e], stream, accepts)
  {
    hide Leaves, Welcome;
  }

  // The place `at` comes behind the whole of the request exactly when that
  // request was drained.
  ghost predicate Behind(e: Served, at: nat) {
    e.contentLen >= 0 && (at == e.start + e.headLen + e.contentLen <==> e.drained)
  }

  ghost predicate Follows(log: seq<Served>, at: nat) {
    if log == [] then at == 0 else Behind(log[|log| - 1], at)
  }

  ghost predicate InPlace(log: seq<Served>, i: nat)
    requires i < |log|
  {
    if i == 0 then log[i].start == 0 else Behind(log[i - 1], log[i].start)
  }

  ghost predicate Faithful(log: seq<Served>, stream: string, contentLenOf: string -> int) {
    && (forall i: nat | i < |log| :: IsRequest(log[i], stream, contentLenOf))
    && (forall i: nat | i < |log| :: InPlace(log, i))
  }

  lemma OneMore(log: seq<Served>, e: Served, stream: string, contentLenOf: string -> int)
    requires Faithful(log, stream, contentLenOf) && IsRequest(e, stream, contentLenOf) && Follows(log, e.start)
    ensures Faithful(log + [e], stream, contentLenOf)
  {
    hide IsRequest, Behind;
    var all := log + [e];
    forall i: nat | i < |all|
      ensures InPlace(all, i)
    {
      assert i < |log| ==> InPlace(log, i);
    }
  }

  lemma NowBehind(log: seq<Served>, e: Served, at: nat)
    requires e.contentLen >= 0 ==> (at == e.start + e.headLen + e.contentLen <==> e.drained)
    ensures e.contentLen >= 0 ==> Follows(log + [e], at)
  {
  }

  // Where the i-th request begins when the stream alone decides: each one
  // right behind the head and the body of the one before.
  ghost function Cut(stream: string, contentLenOf: string -> int, i: nat): (at: nat)
    ensures at <= |stream| || i > 0
  {
    if i == 0 then 0
    else
      var p := Cut(stream, contentLenOf, i - 1);
      if p > |stream| || RequestLen(stream[p..]) <= 0 then p
      else
        var n := RequestLen(stream[p..]);
        p + n + Max(contentLenOf(stream[p..p + n]), 0)
  }

  ghost predicate CutUpTo(log: seq<Served>, stream: string, contentLenOf: string -> int, i: nat)
    requires i < |log|
  {
    log[i].start == Cut(stream, contentLenOf, i) && (i > 0 ==> CutUpTo(log, stream, contentLenOf, i - 1))
  }

  // The requests begin where the stream says, up to and including the one
  // behind the first request that was not drained, and that one does not.
  lemma {:induction false} RequestsAreCutExactly(log: seq<Served>, stream: string, contentLenOf: string -> int, i: nat)
    requires Faithful(log, stream, contentLenOf) && i < |log|
    ensures (forall j: nat | j < i :: log[j].drained) <==> CutUpTo(log, stream, contentLenOf, i)
  {
    hide IsRequest, Behind, Cut;
    if i == 0 {
      CutFromTheStart(stream, contentLenOf);
      assert InPlace(log, 0);
    } else {
      RequestsAreCutExactly(log, stream, contentLenOf, i - 1);
      assert InPlace(log, i) && IsRequest(log[i - 1], stream, contentLenOf);
      if log[i - 1].start == Cut(stream, contentLenOf, i - 1) {
        NextCut(log[i - 1], log[i].start, stream, contentLenOf, i - 1);
      }
    }
  }

  lemma CutFromTheStart(stream: string, contentLenOf: string -> int)
    ensures Cut(stream, contentLenOf, 0) == 0
  {
  }

  lemma NextCut(e: Served, at: nat, stream: string, contentLenOf: string -> int, i: nat)
    requires IsRequest(e, stream, contentLenOf) && Behind(e, at) && e.start == Cut(stream, contentLenOf, i)
    ensures at == Cut(stream, contentLenOf, i + 1) <==> e.drained
  {
  }

  // Two connections that get the same bytes in different pieces, and whose
  // handlers read in different ways, serve the same requests.
  lemma SameRequestsForAnyPieces(log: seq<Served>, other: seq<Served>, stream: string, contentLenOf: string -> int, i: nat)
    requires Faithful(log, stream, contentLenOf) && Faithful(other, stream, contentLenOf)
    requires i < |log| && i < |other|
    requires forall j | 0 <= j < i :: log[j].drained && other[j].drained
    ensures log[i].start == other[i].start && log[i].headLen == other[i].headLen
    ensures log[i].contentLen == other[i].contentLen
  {
    RequestsAreCutExactly(log, stream, contentLenOf, i);
    RequestsAreCutExactly(other, stream, contentLenOf, i);
    assert log[i].start == other[i].start;
    SameRequest(log[i], other[i], stream, contentLenOf);
  }

  lemma SameRequest(e: Served, f: Served, stream: string, contentLenOf: string -> int)
    requires IsRequest(e, stream, contentLenOf) && IsRequest(f, stream, contentLenOf) && e.start == f.start
    ensures e.headLen == f.headLen && e.contentLen == f.contentLen
  {
  }

  lemma SliceOfSlice(s: string, lo: nat, hi: nat, k: nat, n: nat)
    requires lo + k + n <= hi <= |s|
    ensures s[lo..hi][k..k + n] == s[lo + k..lo + k + n]
  {
    var whole := s[lo..hi];
    assert forall j | k <= j < k + n :: whole[j] == s[lo + j];
  }

  lemma Glue(s: string, i: nat, j: nat, k: nat)
    requires i <= j <= k <= |s|
    ensures s[i..k] == s[i..j] + s[j..k]
  {
  }
}
