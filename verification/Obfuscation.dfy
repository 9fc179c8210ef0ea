/**
 The server side of the obfuscated handshake, and the connections it wraps around the network connection.
 Random numbers and MD5 are parameters; the results hold for every choice of them.
 */
module Obfuscation {
  import opened Basics
  import opened KeyStreams
  import opened Rc4
  import opened KeyAgreement

  const MAGIC_REQUESTER: Byte := 34
  const MAGIC_SERVER: Byte := 203
  const MAGIC_SYNC: nat := 0x835E6FC4
  const METHOD_OBFUSCATION: Byte := 0
  const MAX_PADDING: nat := 15
  const CHUNK_SIZE: nat := 65536

  type Key = k: Bytes | k != [] witness [0]

  /** MD5, of which only the type matters. */
  type Digest = Bytes -> Key

  datatype Failure =
    | UnexpectedEnd
    | BadPadding(size: int)
    | BadPublicValue
    | BadMagic
    | BadMethod(id: int)

  // ---------------------------------------------------------------- keys and headers

  /** The keystream a secret gives for one direction. */
  function DirectionStream(md5: Digest, secret: nat, direction: Byte): KeyStream {
    KeyedStream(md5(WriteBE(secret, PRIME_SIZE) + [direction]))
  }

  /** What the server sends: its public value, then magic, methods and padding under its sending keystream. */
  function ServerHello(p: nat, md5: Digest, priv: nat, clientPublic: nat, padding: Bytes): Bytes
    requires p > 1 && |padding| <= MAX_PADDING
  {
    var secret := ModPow(clientPublic, priv, p);
    WriteBE(ModPow(GENERATOR, priv, p), PRIME_SIZE) +
    Crypted(DirectionStream(md5, secret, MAGIC_SERVER), 0, HelloTail(padding))
  }

  function HelloTail(padding: Bytes): (s: Bytes)
    requires |padding| <= MAX_PADDING
    ensures |s| == 7 + |padding|
  {
    WriteLE(MAGIC_SYNC, 4) + [METHOD_OBFUSCATION, METHOD_OBFUSCATION, |padding|] + padding
  }

  function ClientHeader(padding: Bytes): (s: Bytes)
    requires |padding| <= MAX_PADDING
    ensures |s| == 6 + |padding|
  {
    WriteLE(MAGIC_SYNC, 4) + [METHOD_OBFUSCATION, |padding|] + padding
  }

  // ---------------------------------------------------------------- what the handshake makes of the client's bytes

  /** Either a failure, or the client's keystream, the position reached in it, and the bytes still encrypted. */
  datatype Outcome =
    | Failed(failure: Failure)
    | Agreed(clientPublic: nat, stream: KeyStream, at: nat, rest: Bytes)

  /** After the public value and its padding. */
  datatype Opening = BadOpening(failure: Failure) | Opened(clientPublic: nat, rest: Bytes)

  function OpeningOf(p: nat, input: Bytes): Opening {
    if |input| < PRIME_SIZE + 1 then BadOpening(UnexpectedEnd)
    else
      var padding := input[PRIME_SIZE];
      var clientPublic := ReadBE(input[..PRIME_SIZE]);
      if padding > MAX_PADDING then BadOpening(BadPadding(padding))
      else if |input| < PRIME_SIZE + 1 + padding then BadOpening(UnexpectedEnd)
      else if !(0 < clientPublic < p) then BadOpening(BadPublicValue)
      else Opened(clientPublic, input[PRIME_SIZE + 1 + padding..])
  }

  /** The encrypted header, its padding, and what comes after. */
  function HeaderOutcome(clientPublic: nat, stream: KeyStream, input: Bytes): Outcome {
    if |input| < 6 then Failed(UnexpectedEnd)
    else
      var header := Crypted(stream, 0, input[..6]);
      if ReadLE(header[..4]) != MAGIC_SYNC then Failed(BadMagic)
      else if header[4] != METHOD_OBFUSCATION then Failed(BadMethod(header[4]))
      else if header[5] > MAX_PADDING then Failed(BadPadding(header[5]))
      else if |input| < 6 + header[5] then Failed(UnexpectedEnd)
      else Agreed(clientPublic, stream, 6 + header[5], input[6 + header[5]..])
  }

  function HandshakeOutcome(p: nat, md5: Digest, priv: nat, input: Bytes): Outcome
    requires p > 1
  {
    match OpeningOf(p, input)
    case BadOpening(failure) => Failed(failure)
    case Opened(clientPublic, rest) =>
      match HeaderOutcome(clientPublic, DirectionStream(md5, ModPow(clientPublic, priv, p), MAGIC_REQUESTER), rest)
      case Failed(failure) => Failed(failure)
      case Agreed(public, stream, at, rest') =>
        if rest' == [] then Failed(UnexpectedEnd) else Agreed(public, stream, at, rest')
  }

  // ---------------------------------------------------------------- a conforming client

  /** The client's opening: its public value and clear padding. */
  function ClientOpening(p: nat, clientPriv: nat, padding: Bytes): Bytes
    requires p > 1 && |padding| <= MAX_PADDING
  {
    WriteBE(ModPow(GENERATOR, clientPriv, p), PRIME_SIZE) + [|padding|] + padding
  }

  /** All the client ever sends, having received the server's public value. */
  function ClientBytes(p: nat, md5: Digest, clientPriv: nat, serverPublic: nat,
                       padding1: Bytes, padding2: Bytes, plaintext: Bytes): Bytes
    requires p > 1 && |padding1| <= MAX_PADDING && |padding2| <= MAX_PADDING
  {
    var secret := ModPow(serverPublic, clientPriv, p);
    ClientOpening(p, clientPriv, padding1) +
    Crypted(DirectionStream(md5, secret, MAGIC_REQUESTER), 0, ClientHeader(padding2) + plaintext)
  }

  lemma OpeningAccepted(p: nat, clientPriv: nat, padding: Bytes, rest: Bytes)
    requires GoodModulus(p) && |padding| <= MAX_PADDING
    ensures OpeningOf(p, ClientOpening(p, clientPriv, padding) + rest) == Opened(ModPow(GENERATOR, clientPriv, p), rest)
  {
    var public := ModPow(GENERATOR, clientPriv, p);
    var head := WriteBE(public, PRIME_SIZE);
    var input := ClientOpening(p, clientPriv, padding) + rest;
    PublicValueInRange(clientPriv, p);
    SmallerFits(public, p, PRIME_SIZE);
    ReadWriteBE(public, PRIME_SIZE);
    assert input == head + ([|padding|] + padding + rest);
    assert input[..PRIME_SIZE] == head && input[PRIME_SIZE] == |padding|;
    assert input[PRIME_SIZE + 1 + |padding|..] == rest;
  }

  lemma SyncFits()
    ensures MAGIC_SYNC < Pow256(4)
  {
    assert Pow256(2) == 0x1_0000;
    assert Pow256(4) == 256 * (256 * Pow256(2));
  }

  lemma HeaderAccepted(clientPublic: nat, stream: KeyStream, padding: Bytes, plaintext: Bytes)
    requires |padding| <= MAX_PADDING
    ensures HeaderOutcome(clientPublic, stream, Crypted(stream, 0, ClientHeader(padding) + plaintext)) ==
            Agreed(clientPublic, stream, 6 + |padding|, Crypted(stream, 6 + |padding|, plaintext))
  {
    var magic := WriteLE(MAGIC_SYNC, 4);
    var fixed := magic + [METHOD_OBFUSCATION, |padding|];
    var header := ClientHeader(padding);
    var input := Crypted(stream, 0, header + plaintext);
    SyncFits();
    ReadWriteLE(MAGIC_SYNC, 4);
    assert header + plaintext == fixed + (padding + plaintext);
    CryptedSum(stream, 0, fixed, padding + plaintext);
    assert input[..6] == Crypted(stream, 0, fixed);
    CryptedTwice(stream, 0, fixed);
    assert fixed[..4] == magic;
    CryptedSum(stream, 0, header, plaintext);
    assert input[6 + |padding|..] == Crypted(stream, 6 + |padding|, plaintext);
  }

  /**
   With a conforming client the handshake succeeds exactly when the client sends something after it, for
   every choice of secrets, paddings and digest; the bytes left over are then the client's plaintext,
   encrypted at exactly the position the server's generator has reached.
   */
  lemma ConformingClientAgrees(p: nat, md5: Digest, priv: nat, clientPriv: nat,
                               padding1: Bytes, padding2: Bytes, plaintext: Bytes)
    requires GoodModulus(p) && |padding1| <= MAX_PADDING && |padding2| <= MAX_PADDING
    ensures var serverPublic := ModPow(GENERATOR, priv, p);
            var outcome := HandshakeOutcome(p, md5, priv, ClientBytes(p, md5, clientPriv, serverPublic, padding1, padding2, plaintext));
            && (outcome.Agreed? <==> plaintext != [])
            && (outcome.Agreed? ==>
                  && outcome.clientPublic == ModPow(GENERATOR, clientPriv, p)
                  && Crypted(outcome.stream, outcome.at, outcome.rest) == plaintext)
  {
    var serverPublic := ModPow(GENERATOR, priv, p);
    var clientPublic := ModPow(GENERATOR, clientPriv, p);
    SecretsAgree(clientPriv, priv, p);
    var stream := DirectionStream(md5, ModPow(serverPublic, clientPriv, p), MAGIC_REQUESTER);
    var body := Crypted(stream, 0, ClientHeader(padding2) + plaintext);
    OpeningAccepted(p, clientPriv, padding1, body);
    HeaderAccepted(clientPublic, stream, padding2, plaintext);
    CryptedTwice(stream, 6 + |padding2|, plaintext);
  }

  /** The client reads the server's hello and everything sent after it with the keystream of the same secret. */
  lemma ClientReadsServer(p: nat, md5: Digest, priv: nat, clientPriv: nat, padding: Bytes, later: Bytes)
    requires GoodModulus(p) && |padding| <= MAX_PADDING
    ensures var clientPublic := ModPow(GENERATOR, clientPriv, p);
            var hello := ServerHello(p, md5, priv, clientPublic, padding);
            var serverStream := DirectionStream(md5, ModPow(clientPublic, priv, p), MAGIC_SERVER);
            var sent := hello + Crypted(serverStream, 7 + |padding|, later);
            var serverPublic := ReadBE(sent[..PRIME_SIZE]);
            var clientStream := DirectionStream(md5, ModPow(serverPublic, clientPriv, p), MAGIC_SERVER);
            Crypted(clientStream, 0, sent[PRIME_SIZE..]) == HelloTail(padding) + later
  {
    var clientPublic, serverPublic := ModPow(GENERATOR, clientPriv, p), ModPow(GENERATOR, priv, p);
    var stream := DirectionStream(md5, ModPow(clientPublic, priv, p), MAGIC_SERVER);
    var tail := HelloTail(padding);
    SecretsAgree(clientPriv, priv, p);
    SmallerFits(serverPublic, p, PRIME_SIZE);
    ReadWriteBE(serverPublic, PRIME_SIZE);
    HelloReads(WriteBE(serverPublic, PRIME_SIZE), stream, tail, later);
  }

  lemma HelloReads(head: Bytes, stream: KeyStream, tail: Bytes, later: Bytes)
    ensures var sent := head + Crypted(stream, 0, tail) + Crypted(stream, |tail|, later);
            sent[..|head|] == head && Crypted(stream, 0, sent[|head|..]) == tail + later
  {
    HeadAndBody(head, Crypted(stream, 0, tail), Crypted(stream, |tail|, later));
    FirstPiece(stream, 0, |tail|, tail, later);
    CryptedTwice(stream, 0, tail + later);
  }

  lemma FirstPiece(stream: KeyStream, at: nat, next: nat, tail: Bytes, later: Bytes)
    requires next == at + |tail|
    ensures Crypted(stream, at, tail) + Crypted(stream, next, later) == Crypted(stream, at, tail + later)
  {
    CryptedSum(stream, at, tail, later);
  }

  lemma HeadAndBody<T>(head: seq<T>, a: seq<T>, b: seq<T>)
    ensures (head + a + b)[..|head|] == head && (head + a + b)[|head|..] == a + b
  {
  }

  // ---------------------------------------------------------------- connections

  /** The stream cut in two: what was decrypted so far and what is still to come. */
  lemma SplitStream(stream: KeyStream, at: nat, due: Bytes, n: nat, read: Bytes, left: Bytes)
    requires n <= |due| && read == Crypted(stream, at, due[..n]) && left == Crypted(stream, at + n, due[n..])
    ensures read + left == Crypted(stream, at, due)
  {
    assert due == due[..n] + due[n..];
    CryptedSum(stream, at, due[..n], due[n..]);
  }

  /** A network connection: the bytes still to arrive from the client, and those sent to it. */
  class NetConn {
    var incoming: Bytes
    var outgoing: Bytes

    constructor (incoming: Bytes)
      ensures this.incoming == incoming && outgoing == []
    {
      this.incoming := incoming;
      outgoing := [];
    }

    /**
     Some of the bytes that are due, at least one unless none are left or the buffer is empty; how many is up to
     the network. The end of the stream is reported with the last bytes or by a read after them.
     */
    method Read(p: array<Byte>, from: nat) returns (n: nat, end: bool)
      requires from <= p.Length
      modifies this`incoming, p
      ensures n <= p.Length - from && n <= |old(incoming)|
      ensures p[..from] == old(p[..from]) && p[from..from + n] == old(incoming)[..n]
      ensures from == 0 ==> p[..n] == old(incoming)[..n]
      ensures p[from + n..] == old(p[from + n..])
      ensures incoming == old(incoming)[n..]
      ensures end ==> incoming == []
      ensures old(incoming) == [] && from < p.Length ==> end
      ensures n == 0 <==> old(incoming) == [] || from == p.Length
    {
      n := AnyLength(if |incoming| < p.Length - from then |incoming| else p.Length - from);
      var early: bool := *;
      end := n == |incoming| && from < p.Length && (n == 0 || early);
      for i := 0 to n
        invariant incoming == old(incoming) && n <= |incoming| && n <= p.Length - from
        invariant forall k :: 0 <= k < i ==> p[from + k] == incoming[k]
        invariant forall k :: 0 <= k < p.Length && !(from <= k < from + i) ==> p[k] == old(p[k])
      {
        p[from + i] := incoming[i];
      }
      incoming := incoming[n..];
    }

    method Write(data: Bytes)
      modifies this`outgoing
      ensures outgoing == old(outgoing) + data
    {
      outgoing := outgoing + data;
    }
  }

  /** Any number from one to most, or zero if most is zero: what the network chooses to deliver. */
  method AnyLength(most: nat) returns (n: nat)
    ensures n <= most && (n == 0 <==> most == 0)
  {
    if most == 0 {
      return 0;
    }
    n :| 1 <= n <= most;
  }

  /** io.ReadFull: exactly size bytes, or none to show when the stream ends first. */
  method ReadFull(conn: NetConn, size: nat) returns (ok: bool, buf: array<Byte>)
    modifies conn`incoming
    ensures fresh(buf) && buf.Length == size
    ensures ok <==> size <= |old(conn.incoming)|
    ensures ok ==> buf[..] == old(conn.incoming)[..size] && conn.incoming == old(conn.incoming)[size..]
  {
    buf := new Byte[size](_ => 0);
    var got := 0;
    ghost var all := conn.incoming;
    while got < size
      invariant 0 <= got <= size && got <= |all|
      invariant buf[..got] == all[..got] && conn.incoming == all[got..]
      decreases size - got
    {
      var n, end := conn.Read(buf, got);
      assert all[..got + n] == all[..got] + all[got..][..n];
      assert buf[..got + n] == buf[..got] + buf[got..got + n];
      got := got + n;
      if end && got < size {
        return false, buf;
      }
    }
    assert buf[..size] == buf[..];
    ok := true;
  }

  /** A connection with a generator for each direction. */
  class ObfConn {
    const net: NetConn
    const send: Generator
    const recv: Generator

    constructor (net: NetConn, send: Generator, recv: Generator)
      ensures this.net == net && this.send == send && this.recv == recv
    {
      this.net, this.send, this.recv := net, send, recv;
    }

    ghost predicate Valid()
      reads this, send, recv, send.s, recv.s
    {
      send.Valid() && recv.Valid() && send.s != recv.s && send != recv
    }

    /** The plaintext still to be read: what is due, decrypted from where the receiving generator stands. */
    ghost function Pending(): Bytes
      reads this, net, send, recv, send.s, recv.s
      requires Valid()
    {
      Crypted(recv.stream, recv.pos, net.incoming)
    }

    method Read(p: array<Byte>) returns (n: nat, end: bool)
      requires Valid() && p != send.s && p != recv.s
      modifies net`incoming, recv`x, recv`y, recv`pos, recv.s, p
      ensures Valid() && recv.stream == old(recv.stream)
      ensures n <= p.Length && p[..n] + Pending() == old(Pending())
      ensures end ==> Pending() == []
      ensures old(Pending()) == [] && p.Length > 0 ==> end
      ensures n == 0 <==> old(Pending()) == [] || p.Length == 0
    {
      ghost var due, stream, at := net.incoming, recv.stream, recv.pos;
      n, end := net.Read(p, 0);
      ghost var got := due[..n];
      assert p[..n] == got;
      recv.XorInPlace(p, n);
      SplitStream(stream, at, due, n, p[..n], Pending());
    }

    method Write(p: Bytes)
      requires Valid()
      modifies net`outgoing, send`x, send`y, send`pos, send.s
      ensures Valid() && send.stream == old(send.stream) && send.pos == old(send.pos) + |p|
      ensures net.outgoing == old(net.outgoing) + Crypted(send.stream, old(send.pos), p)
    {
      var buf := new Byte[|p|](i requires 0 <= i < |p| => p[i]);
      assert buf[..|p|] == p;
      send.XorInPlace(buf, |p|);
      net.Write(buf[..]);
      assert buf[..] == buf[..|p|];
    }
  }

  /** A connection that first hands over bytes already read. */
  class PrependConn {
    const conn: ObfConn
    var prefix: Bytes

    constructor (conn: ObfConn, prefix: Bytes)
      ensures this.conn == conn && this.prefix == prefix
    {
      this.conn, this.prefix := conn, prefix;
    }

    ghost predicate Valid()
      reads this, conn, conn.send, conn.recv, conn.send.s, conn.recv.s
    {
      conn.Valid()
    }

    /** The plaintext still to be read: first the prefix, then the connection's. */
    ghost function Pending(): Bytes
      reads this, conn, conn.net, conn.send, conn.recv, conn.send.s, conn.recv.s
      requires Valid()
    {
      prefix + conn.Pending()
    }

    method Read(p: array<Byte>) returns (n: nat, end: bool)
      requires Valid() && p != conn.send.s && p != conn.recv.s
      modifies this`prefix, conn.net`incoming, conn.recv`x, conn.recv`y, conn.recv`pos, conn.recv.s, p
      ensures Valid() && conn.recv.stream == old(conn.recv.stream)
      ensures n <= p.Length && p[..n] + Pending() == old(Pending())
      ensures end ==> Pending() == []
      ensures old(Pending()) == [] && p.Length > 0 ==> end
      ensures n == 0 <==> old(Pending()) == [] || p.Length == 0
    {
      if |prefix| > 0 {
        n := if |prefix| < p.Length then |prefix| else p.Length;
        for i := 0 to n
          invariant prefix == old(prefix)
          invariant forall k :: 0 <= k < i ==> p[k] == prefix[k]
          invariant conn.Valid() && conn.Pending() == old(conn.Pending()) && conn.recv.stream == old(conn.recv.stream)
        {
          p[i] := prefix[i];
        }
        assert p[..n] == prefix[..n];
        assert prefix == prefix[..n] + prefix[n..];
        prefix := prefix[n..];
        return n, false;
      }
      n, end := conn.Read(p);
    }

    /** Successive reads into fresh buffers of the given sizes: together they are the next part of the plaintext,
        and all that is left once there were enough of them. */
    method ReadPieces(sizes: seq<nat>) returns (pieces: seq<Bytes>)
      requires Valid()
      modifies this`prefix, conn.net`incoming, conn.recv`x, conn.recv`y, conn.recv`pos, conn.recv.s
      ensures Valid() && |pieces| == |sizes|
      ensures forall i :: 0 <= i < |pieces| ==> |pieces[i]| <= sizes[i]
      ensures Joined(pieces) + Pending() == old(Pending())
      ensures |sizes| >= |old(Pending())| && (forall i :: 0 <= i < |sizes| ==> sizes[i] > 0) ==> Joined(pieces) == old(Pending())
    {
      pieces := [];
      for i := 0 to |sizes|
        invariant Valid() && |pieces| == i
        invariant forall k :: 0 <= k < i ==> |pieces[k]| <= sizes[k]
        invariant Joined(pieces) + Pending() == old(Pending())
        invariant (forall k :: 0 <= k < i ==> sizes[k] > 0) ==> Pending() == [] || i + |Pending()| <= |old(Pending())|
      {
        var piece := ReadPiece(sizes[i]);
        JoinedLast(pieces, piece);
        Reassociate3(Joined(pieces), piece, Pending());
        pieces := pieces + [piece];
      }
    }

    method ReadPiece(size: nat) returns (piece: Bytes)
      requires Valid()
      modifies this`prefix, conn.net`incoming, conn.recv`x, conn.recv`y, conn.recv`pos, conn.recv.s
      ensures Valid() && |piece| <= size && piece + Pending() == old(Pending())
      ensures piece == [] <==> old(Pending()) == [] || size == 0
    {
      var buf := new Byte[size](_ => 0);
      var n, end := Read(buf);
      piece := buf[..n];
    }
  }

  lemma {:induction false} JoinedLast(chunks: seq<Bytes>, last: Bytes)
    ensures Joined(chunks + [last]) == Joined(chunks) + last
    decreases |chunks|
  {
    if chunks == [] {
      assert chunks + [last] == [last] && [last][1..] == [];
    } else {
      JoinedLast(chunks[1..], last);
      assert (chunks + [last])[1..] == chunks[1..] + [last];
    }
  }

  // ---------------------------------------------------------------- the handshake

  datatype HandshakeResult = Connected(conn: PrependConn) | Refused(failure: Failure)

  /** The server's side of the handshake, priv and padding being its random choices. */
  method ServerObfuscatedHandshake(net: NetConn, p: nat, md5: Digest, priv: nat, padding: Bytes) returns (r: HandshakeResult)
    requires GoodModulus(p) && |padding| <= MAX_PADDING
    modifies net
    ensures match HandshakeOutcome(p, md5, priv, old(net.incoming))
            case Failed(failure) => r == Refused(failure)
            case Agreed(_, stream, at, rest) =>
              && r.Connected? && fresh(r.conn) && fresh(r.conn.conn) && r.conn.conn.net == net
              && fresh(r.conn.conn.send) && fresh(r.conn.conn.recv) && fresh(r.conn.conn.send.s) && fresh(r.conn.conn.recv.s)
              && r.conn.Valid()
              && r.conn.Pending() == Crypted(stream, at, rest)
    ensures match OpeningOf(p, old(net.incoming))
            case BadOpening(_) => net.outgoing == old(net.outgoing)
            case Opened(clientPublic, _) => net.outgoing == old(net.outgoing) + ServerHello(p, md5, priv, clientPublic, padding)
    ensures r.Connected? ==>
              && r.conn.conn.send.pos == 7 + |padding|
              && r.conn.conn.send.stream ==
                 DirectionStream(md5, ModPow(OpeningOf(p, old(net.incoming)).clientPublic, priv, p), MAGIC_SERVER)
  {
    var opening := ReadOpening(net, p);
    if opening.BadOpening? {
      return Refused(opening.failure);
    }
    var secret := ModPow(opening.clientPublic, priv, p);
    var send := DirectionGenerator(md5, secret, MAGIC_SERVER);
    var recv := DirectionGenerator(md5, secret, MAGIC_REQUESTER);
    SendHello(net, send, ModPow(GENERATOR, priv, p), padding);
    var failure := ReadHeader(net, recv, opening.clientPublic);
    if failure.Some? {
      return Refused(failure.value);
    }
    r := WrapConnection(net, send, recv);
  }

  /**
   A conforming client served from the handshake on, however the network cuts its bytes into segments and
   whatever buffer sizes the server reads with: the pieces read are, in order, the beginning of the
   client's plaintext, and all of it once there have been enough reads.
   */
  method ServeConformingClient(p: nat, md5: Digest, priv: nat, padding: Bytes, sizes: seq<nat>,
                               clientPriv: nat, padding1: Bytes, padding2: Bytes, plaintext: Bytes)
    returns (ok: bool, pieces: seq<Bytes>)
    requires GoodModulus(p) && |padding| <= MAX_PADDING && |padding1| <= MAX_PADDING && |padding2| <= MAX_PADDING
    ensures ok <==> plaintext != []
    ensures ok ==> |pieces| == |sizes| && Joined(pieces) <= plaintext
    ensures ok && |sizes| >= |plaintext| && (forall i :: 0 <= i < |sizes| ==> sizes[i] > 0) ==> Joined(pieces) == plaintext
  {
    ConformingClientAgrees(p, md5, priv, clientPriv, padding1, padding2, plaintext);
    var net := new NetConn(ClientBytes(p, md5, clientPriv, ModPow(GENERATOR, priv, p), padding1, padding2, plaintext));
    var r := ServerObfuscatedHandshake(net, p, md5, priv, padding);
    if r.Refused? {
      return false, [];
    }
    pieces := r.conn.ReadPieces(sizes);
    ok := true;
  }

  /** The generator of one direction. */
  method DirectionGenerator(md5: Digest, secret: nat, direction: Byte) returns (g: Generator)
    ensures fresh(g) && fresh(g.s) && g.Valid()
    ensures g.stream == DirectionStream(md5, secret, direction) && g.pos == 0
  {
    g := new Generator(md5(WriteBE(secret, PRIME_SIZE) + [direction]));
  }

  /** The first bytes after the handshake are read along with it and put in front of the connection. */
  method WrapConnection(net: NetConn, send: Generator, recv: Generator) returns (r: HandshakeResult)
    requires send.Valid() && recv.Valid() && send != recv && send.s != recv.s
    modifies net`incoming, recv`x, recv`y, recv`pos, recv.s
    ensures recv.stream == old(recv.stream)
    ensures old(net.incoming) == [] ==> r == Refused(UnexpectedEnd)
    ensures old(net.incoming) != [] ==>
              && r.Connected? && fresh(r.conn) && fresh(r.conn.conn)
              && r.conn.conn.net == net && r.conn.conn.send == send && r.conn.conn.recv == recv
              && r.conn.Valid()
              && r.conn.Pending() == Crypted(recv.stream, old(recv.pos), old(net.incoming))
  {
    var prefix := ReadChunk(net, recv);
    if prefix == [] {
      return Refused(UnexpectedEnd);
    }
    var inner := new ObfConn(net, send, recv);
    var conn := new PrependConn(inner, prefix);
    r := Connected(conn);
  }

  /** One read of whatever the network has, decrypted; nothing only at the end of the stream. */
  method ReadChunk(net: NetConn, recv: Generator) returns (plain: Bytes)
    requires recv.Valid()
    modifies net`incoming, recv`x, recv`y, recv`pos, recv.s
    ensures recv.Valid() && recv.stream == old(recv.stream)
    ensures plain == [] <==> old(net.incoming) == []
    ensures plain + Crypted(recv.stream, recv.pos, net.incoming) == Crypted(recv.stream, old(recv.pos), old(net.incoming))
  {
    ghost var rest, stream, at := net.incoming, recv.stream, recv.pos;
    var chunk := new Byte[CHUNK_SIZE](_ => 0);
    var n, end := net.Read(chunk, 0);
    ghost var got := rest[..n];
    assert chunk[..n] == got;
    recv.XorInPlace(chunk, n);
    plain := chunk[..n];
    SplitStream(stream, at, rest, n, plain, Crypted(stream, at + n, net.incoming));
  }

  /** The client's public value and clear padding. */
  method ReadOpening(net: NetConn, p: nat) returns (opening: Opening)
    modifies net`incoming
    ensures opening == OpeningOf(p, old(net.incoming))
    ensures opening.Opened? ==> net.incoming == opening.rest
  {
    ghost var input := net.incoming;
    var ok, publicBuf := ReadFull(net, PRIME_SIZE);
    if !ok {
      return BadOpening(UnexpectedEnd);
    }
    var ok1, sizeBuf := ReadFull(net, 1);
    if !ok1 {
      return BadOpening(UnexpectedEnd);
    }
    var size := sizeBuf[0];
    assert sizeBuf[..][0] == input[PRIME_SIZE];
    if size > MAX_PADDING {
      return BadOpening(BadPadding(size));
    }
    var ok2, paddingBuf := ReadFull(net, size);
    if !ok2 {
      return BadOpening(UnexpectedEnd);
    }
    var clientPublic := ReadBE(publicBuf[..]);
    if clientPublic == 0 || clientPublic >= p {
      return BadOpening(BadPublicValue);
    }
    assert net.incoming == input[PRIME_SIZE + 1 + size..];
    return Opened(clientPublic, net.incoming);
  }

  /** The server's public value in clear and its tail encrypted. */
  method SendHello(net: NetConn, send: Generator, public: nat, padding: Bytes)
    requires send.Valid() && send.pos == 0 && |padding| <= MAX_PADDING
    modifies net`outgoing, send`x, send`y, send`pos, send.s
    ensures send.Valid() && send.stream == old(send.stream) && send.pos == 7 + |padding|
    ensures net.outgoing == old(net.outgoing) + (WriteBE(public, PRIME_SIZE) + Crypted(send.stream, 0, HelloTail(padding)))
  {
    var tail := HelloTail(padding);
    var buf := new Byte[|tail|](i requires 0 <= i < |tail| => tail[i]);
    assert buf[..|tail|] == tail;
    send.XorInPlace(buf, |tail|);
    assert buf[..] == buf[..|tail|];
    net.Write(WriteBE(public, PRIME_SIZE) + buf[..]);
  }

  /** The client's encrypted header and padding. */
  method ReadHeader(net: NetConn, recv: Generator, ghost clientPublic: nat) returns (failure: Option<Failure>)
    requires recv.Valid() && recv.pos == 0
    modifies net`incoming, recv`x, recv`y, recv`pos, recv.s
    ensures recv.Valid() && recv.stream == old(recv.stream)
    ensures match HeaderOutcome(clientPublic, recv.stream, old(net.incoming))
            case Failed(f) => failure == Some(f)
            case Agreed(_, _, at, rest) => failure == None && recv.pos == at && net.incoming == rest
  {
    ghost var input := net.incoming;
    var ok, header := ReadFull(net, 6);
    if !ok {
      return Some(UnexpectedEnd);
    }
    assert header[..6] == header[..] == input[..6];
    recv.XorInPlace(header, 6);
    ghost var plain := Crypted(recv.stream, 0, input[..6]);
    assert header[..6] == plain && header[..4] == plain[..4];
    if ReadLE(header[..4]) != MAGIC_SYNC {
      return Some(BadMagic);
    }
    if header[4] != METHOD_OBFUSCATION {
      return Some(BadMethod(header[4]));
    }
    var size := header[5];
    if size > MAX_PADDING {
      return Some(BadPadding(size));
    }
    var ok1, padding := ReadFull(net, size);
    if !ok1 {
      return Some(UnexpectedEnd);
    }
    recv.XorInPlace(padding, size);
    return None;
  }
}
