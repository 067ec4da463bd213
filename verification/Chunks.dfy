/**
 Receiving DOF from a process through the ADDDOF ioctl (helper_ioctl() in
 dtprobed/dtprobed.c): every call sees the bytes that the previous one asked for, and
 asks for more until the whole is there.  DOF larger than a chunk is fetched chunk by
 chunk into a buffer.
 */
module Chunks {
  import Word

  type Byte = x: int | 0 <= x < 256

  /** sizeof(dof_helper_t), sizeof(dof_hdr_t) and DOF_CHUNKSZ. */
  const HELPER_SIZE := 80
  const HEADER_SIZE := 64
  const CHUNK := 0x1_0000

  /** The 64-bit number at an offset, least significant byte first. */
  function Number(s: seq<Byte>, at: nat, n: nat): nat
    requires at + n <= |s|
    decreases n
  {
    if n == 0 then 0 else s[at] + 256 * Number(s, at + 1, n - 1)
  }

  /** dofhp_dof and dofh_loadsz. */
  function DofAddress(helper: seq<Byte>): nat
    requires |helper| == HELPER_SIZE
  {
    Number(helper, 72, 8)
  }

  function LoadSize(header: seq<Byte>): nat
    requires |header| == HEADER_SIZE
  {
    Number(header, 40, 8)
  }

  /** A number as its bytes, least significant first. */
  function Bytes(v: nat, n: nat): (s: seq<Byte>)
    ensures |s| == n
  {
    if n == 0 then [] else [v % 256] + Bytes(v / 256, n - 1)
  }

  /** dof_helper_t: name and address of the object, address of its DOF. */
  datatype Helper = Helper(mod: seq<Byte>, addr: Word.U64, dof: Word.U64)

  function HelperBytes(h: Helper): seq<Byte> {
    h.mod + Bytes(h.addr, 8) + Bytes(h.dof, 8)
  }

  /** dof_hdr_t: identification, four numbers of 32 bits, four of 64. */
  datatype Header = Header(ident: seq<Byte>, flags: Word.U32, hdrsize: Word.U32, secsize: Word.U32, secnum: Word.U32,
      secoff: Word.U64, loadsz: Word.U64, filesz: Word.U64, pad: Word.U64)

  function HeaderBytes(h: Header): seq<Byte> {
    h.ident + Bytes(h.flags, 4) + Bytes(h.hdrsize, 4) + Bytes(h.secsize, 4) + Bytes(h.secnum, 4) +
    Bytes(h.secoff, 8) + Bytes(h.loadsz, 8) + Bytes(h.filesz, 8) + Bytes(h.pad, 8)
  }

  lemma {:induction false} NumberBytes(s: seq<Byte>, at: nat, v: nat, n: nat)
    requires at + n <= |s| && s[at..at + n] == Bytes(v, n) && v < Word.Pow2(8 * n)
    ensures Number(s, at, n) == v
    decreases n
  {
    if n > 0 {
      assert s[at] == s[at..at + n][0] == v % 256;
      assert s[at + 1..at + n] == s[at..at + n][1..] == Bytes(v / 256, n - 1);
      Word.Pow2Add(8, 8 * (n - 1));
      Word.Pow2OfByte();
      NumberBytes(s, at + 1, v / 256, n - 1);
    }
  }

  /** The fields that are looked at are those of the structures. */
  lemma {:induction false} FieldsFound(helper: Helper, header: Header)
    ensures |helper.mod| == 64 ==> |HelperBytes(helper)| == HELPER_SIZE && DofAddress(HelperBytes(helper)) == helper.dof
    ensures |header.ident| == 16 ==>
      |HeaderBytes(header)| == HEADER_SIZE && LoadSize(HeaderBytes(header)) == header.loadsz
  {
    hide Bytes, Number, Word.Pow2;
    Word.Pow2Of64();
    if |helper.mod| == 64 {
      var s := HelperBytes(helper);
      assert s[72..80] == Bytes(helper.dof, 8);
      NumberBytes(s, 72, helper.dof, 8);
    }
    if |header.ident| == 16 {
      var s := HeaderBytes(header);
      assert s[40..48] == Bytes(header.loadsz, 8);
      NumberBytes(s, 40, header.loadsz, 8);
    }
  }

  datatype Phase = Start | Hdr | DofHdr | DofChunk | Dof

  /** The reply to a call: a request for bytes of the process, the end with this DOF
      handed to the parser, or an error. */
  datatype Reply = Retry(base: nat, len: nat) | Done(dof: seq<Byte>) | Error

  /** What the daemon's own calls return: sending the reply, allocating, parsing. */
  datatype Env = Env(replied: bool, gotMemory: bool, parsed: bool)

  function Min(a: int, b: int): int {
    if a < b then a else b
  }

  class Session {
    var phase: Phase
    var address: nat
    var loadsz: nat
    var next: nat
    var buf: array?<Byte>

    constructor ()
      ensures Valid() && phase == Start
    {
      phase, address, loadsz, next, buf := Start, 0, 0, 0, null;
    }

    /** A buffer is held only while chunks are being fetched; it has room for the whole,
        and something is still missing. */
    ghost predicate Valid()
      reads this
    {
      && (phase == DofChunk <==> buf != null)
      && (phase == DofChunk ==> buf.Length == loadsz > CHUNK && next < loadsz)
      && (phase == Hdr || phase == DofHdr ==> next == 0)
      && (phase == Dof ==> loadsz <= CHUNK)
    }

    /** The end of every exchange: nothing is kept. */
    method Reset()
      modifies `buf, `phase
      ensures Valid() && phase == Start && buf == null
    {
      buf := null;
      phase := Start;
    }

    /** The call with the DOF header: the size is known, and the fetching starts. */
    method TakeHeader(input: seq<Byte>, env: Env) returns (r: Reply)
      requires Valid() && phase == DofHdr && |input| >= HEADER_SIZE
      modifies this
      ensures Valid() && (r.Retry? || (phase == Start && buf == null))
      ensures address == old(address)
      ensures r.Retry? <==> |input| == HEADER_SIZE && env.replied && (LoadSize(input) > CHUNK ==> env.gotMemory)
      ensures r.Retry? ==>
        && loadsz == LoadSize(input) && next == 0
        && phase == (if loadsz > CHUNK then DofChunk else Dof) && (buf != null ==> fresh(buf))
        && r == Retry(address, Min(CHUNK, loadsz))
      ensures !r.Retry? ==> r == Error
    {
      if |input| > HEADER_SIZE {
        Reset();
        return Error;
      }
      loadsz := LoadSize(input);
      if loadsz > CHUNK {
        if !env.gotMemory {
          Reset();
          return Error;
        }
        if !env.replied {
          Reset();
          return Error;
        }
        buf := new Byte[loadsz](_ => 0);
        phase := DofChunk;
        return Retry(address, CHUNK);
      }
      if !env.replied {
        Reset();
        return Error;
      }
      phase := Dof;
      r := Retry(address, loadsz);
    }

    /** The copy of a chunk into the buffer. */
    method Store(input: seq<Byte>, n: nat)
      requires buf != null && next + n <= buf.Length && n <= |input|
      modifies buf
      ensures buf[..next] == old(buf[..next]) && buf[next..next + n] == input[..n]
    {
      var i := 0;
      while i < n
        invariant 0 <= i <= n && buf[..next] == old(buf[..next]) && buf[next..next + i] == input[..i]
      {
        buf[next + i] := input[i];
        i := i + 1;
      }
    }

    /** A call with a chunk: it is put behind the previous ones, and the next one is asked
        for, until nothing remains. */
    method TakeChunk(input: seq<Byte>, env: Env) returns (r: Reply)
      requires Valid() && phase == DofChunk && |input| >= HEADER_SIZE
      modifies this, buf
      ensures Valid() && (r.Retry? || (phase == Start && buf == null))
      ensures address == old(address) && loadsz == old(loadsz)
      ensures var n := Min(|input|, old(loadsz - next));
        var have := old(buf[..next]) + input[..n];
        if |have| == loadsz then r == if env.parsed && env.replied then Done(have) else Error
        else if !env.replied then r == Error
        else
          && phase == DofChunk && buf == old(buf) && next == |have| && buf[..next] == have
          && r == Retry(address + next, Min(CHUNK, loadsz - next))
      ensures r.Retry? ==> old(next) < next < loadsz
    {
      var remaining := loadsz - next;
      var n := Min(|input|, remaining);
      ghost var have := buf[..next] + input[..n];
      Store(input, n);
      assert buf[..next + n] == buf[..next] + buf[next..next + n];
      next := next + n;
      remaining := remaining - n;
      if remaining <= 0 {
        assert buf[..] == buf[..next];
        if !env.parsed || !env.replied {
          Reset();
          return Error;
        }
        r := Done(buf[..]);
        Reset();
        return;
      }
      if !env.replied {
        Reset();
        return Error;
      }
      r := Retry(address + next, Min(CHUNK, remaining));
    }

    /** helper_ioctl for ADDDOF. */
    method Call(arg: nat, input: seq<Byte>, env: Env) returns (r: Reply)
      requires Valid()
      modifies this, buf
      ensures Valid() && (r.Retry? || (phase == Start && buf == null))
      ensures buf == old(buf) || buf == null || fresh(buf)
      ensures old(phase) == Start ==>
        r == (if env.replied then Retry(arg, HELPER_SIZE) else Error) && (r.Retry? ==> phase == Hdr)
      ensures old(phase) == Hdr ==>
        if |input| == HELPER_SIZE && env.replied
        then address == DofAddress(input) && r == Retry(address, HEADER_SIZE) && phase == DofHdr
        else r == Error
      ensures old(phase) == DofHdr ==>
        if |input| == HEADER_SIZE && env.replied && (LoadSize(input) > CHUNK ==> env.gotMemory)
        then && loadsz == LoadSize(input) && next == 0 && address == old(address)
             && phase == (if loadsz > CHUNK then DofChunk else Dof) && r == Retry(address, Min(CHUNK, loadsz))
        else r == Error
      ensures old(phase) == DofChunk ==>
        if |input| < HEADER_SIZE then r == Error
        else
          var n := Min(|input|, old(loadsz - next));
          var have := old(buf[..next]) + input[..n];
          && loadsz == old(loadsz) && address == old(address)
          && (if |have| == loadsz then r == if env.parsed && env.replied then Done(have) else Error
              else if !env.replied then r == Error
              else && phase == DofChunk && buf == old(buf) && old(next) < next == |have| && buf[..next] == have
                   && r == Retry(address + next, Min(CHUNK, loadsz - next)))
      ensures old(phase) == Dof ==>
        r == if |input| >= HEADER_SIZE && env.parsed && env.replied then Done(input) else Error
    {
      if phase == Start {
        if !env.replied {
          Reset();
          return Error;
        }
        buf, next, phase := null, 0, Hdr;
        return Retry(arg, HELPER_SIZE);
      }
      if phase == Hdr {
        if |input| != HELPER_SIZE || !env.replied {
          Reset();
          return Error;
        }
        address, phase := DofAddress(input), DofHdr;
        return Retry(address, HEADER_SIZE);
      }
      if |input| < HEADER_SIZE {
        Reset();
        return Error;
      }
      if phase == DofHdr {
        r := TakeHeader(input, env);
        return;
      }
      if phase == DofChunk {
        r := TakeChunk(input, env);
        return;
      }
      Reset();
      r := if env.parsed && env.replied then Done(input) else Error;
    }
  }

  // ----- the whole exchange -----

  /** The bytes of the process that a request is for. */
  function Fetch(mem: nat -> Byte, base: nat, len: nat): (s: seq<Byte>)
    ensures |s| == len && forall i :: 0 <= i < len ==> s[i] == mem(base + i)
  {
    seq(len, i requires 0 <= i < len => mem(base + i))
  }

  lemma {:induction false} FetchJoin(mem: nat -> Byte, base: nat, m: nat, n: nat)
    ensures Fetch(mem, base, m) + Fetch(mem, base + m, n) == Fetch(mem, base, m + n)
  {
  }

  /** The requests for the DOF itself are next to each other, from its start to its end. */
  ghost predicate Tile(requests: seq<(nat, nat)>, base: nat, len: nat) {
    if requests == [] then len == 0
    else
      var (b, l) := requests[|requests| - 1];
      l <= len && b == base + (len - l) && l > 0 && Tile(requests[..|requests| - 1], base, len - l)
  }

  /** The last chunk, or the whole if it is not larger than a chunk, must not be shorter
      than a header: that is demanded of every call that brings DOF. */
  predicate Deliverable(loadsz: nat) {
    if loadsz <= CHUNK then loadsz >= HEADER_SIZE
    else loadsz % CHUNK == 0 || loadsz % CHUNK >= HEADER_SIZE
  }

  /** The bytes still to come when `next` of them are there can be delivered. */
  lemma {:induction false} RestDeliverable(loadsz: nat, next: nat)
    requires loadsz > CHUNK && next < loadsz && next % CHUNK == 0
    ensures var l := Min(CHUNK, loadsz - next);
      && l >= 1 && (l < CHUNK ==> next + l == loadsz && l == loadsz % CHUNK)
      && (l == CHUNK ==> (next + l) % CHUNK == 0)
  {
    var k := next / CHUNK;
    assert next == CHUNK * k;
  }

  /** All of the daemon's own calls succeed. */
  ghost predicate AllWell(env: nat -> Env) {
    forall i :: env(i) == Env(true, true, true)
  }

  /** What an exchange leads to: exactly the process's DOF is handed to the parser, or there
      is an error; and if all of the daemon's own calls succeed there is an error just if a
      part of the DOF is too short. */
  ghost predicate Delivers(mem: nat -> Byte, address: nat, loadsz: nat, env: nat -> Env, r: Reply,
                           requests: seq<(nat, nat)>) {
    && (r == Error || (Deliverable(loadsz) && r == Done(Fetch(mem, address, loadsz)) &&
           Tile(requests, address, loadsz)))
    && (AllWell(env) && Deliverable(loadsz) ==> r != Error)
  }

  /** The process has a helper structure at `arg`, and a DOF header where that says. */
  ghost predicate Offers(mem: nat -> Byte, arg: nat, helper: Helper, header: Header) {
    && |helper.mod| == 64 && Fetch(mem, arg, HELPER_SIZE) == HelperBytes(helper)
    && |header.ident| == 16 && Fetch(mem, helper.dof, HEADER_SIZE) == HeaderBytes(header)
  }

  /** A piece and ten bytes: nothing is delivered, although nothing fails. */
  lemma {:induction false} ShortPiece(mem: nat -> Byte, address: nat, env: nat -> Env, r: Reply,
                                      requests: seq<(nat, nat)>)
    requires Delivers(mem, address, CHUNK + 10, env, r, requests)
    ensures r == Error
  {
    assert (CHUNK + 10) % CHUNK == 10;
  }

  /** An exchange on any session that is between exchanges, with a process whose memory is
      `mem`, every call getting the bytes that were asked for, and the daemon's own calls in
      call number `i` returning `env(i)`: it ends, and leaves the session as it was. */
  method Exchange(s: Session, mem: nat -> Byte, arg: nat, env: nat -> Env)
    returns (r: Reply, ghost requests: seq<(nat, nat)>)
    requires s.Valid() && s.phase == Start
    modifies s
    ensures s.Valid() && s.phase == Start && s.buf == null
    ensures var address := DofAddress(Fetch(mem, arg, HELPER_SIZE));
      Delivers(mem, address, LoadSize(Fetch(mem, address, HEADER_SIZE)), env, r, requests)
  {
    requests := [];
    r := s.Call(arg, [], env(0));
    if r == Error { return; }
    r := s.Call(arg, Fetch(mem, arg, HELPER_SIZE), env(1));
    if r == Error { return; }
    var address := s.address;
    r := s.Call(arg, Fetch(mem, address, HEADER_SIZE), env(2));
    if r == Error { return; }
    var loadsz := s.loadsz;
    if s.phase == Dof {
      if loadsz > 0 { requests := [(address, loadsz)]; }
      assert loadsz > 0 ==> requests[..0] == [];
      r := s.Call(arg, Fetch(mem, address, loadsz), env(3));
    } else {
      r, requests := Fetching(s, mem, arg, address, loadsz, r, env);
    }
  }

  /** In terms of what the process offers: the DOF is as long as its header says, from where
      the helper structure says. */
  lemma {:induction false} OfferDelivered(mem: nat -> Byte, arg: nat, helper: Helper, header: Header, env: nat -> Env,
                                          r: Reply, requests: seq<(nat, nat)>)
    requires Offers(mem, arg, helper, header)
    requires var address := DofAddress(Fetch(mem, arg, HELPER_SIZE));
      Delivers(mem, address, LoadSize(Fetch(mem, address, HEADER_SIZE)), env, r, requests)
    ensures Delivers(mem, helper.dof, header.loadsz, env, r, requests)
  {
    hide DofAddress, LoadSize, Delivers, HelperBytes, HeaderBytes;
    FieldsFound(helper, header);
  }

  /** The calls that bring the chunks. */
  method Fetching(s: Session, mem: nat -> Byte, arg: nat, address: nat, loadsz: nat, first: Reply, env: nat -> Env)
    returns (r: Reply, ghost requests: seq<(nat, nat)>)
    requires s.Valid() && s.phase == DofChunk && s.address == address && s.loadsz == loadsz && s.next == 0
    requires first == Retry(address, CHUNK)
    modifies s, s.buf
    ensures s.Valid() && s.phase == Start && s.buf == null
    ensures Delivers(mem, address, loadsz, env, r, requests)
  {
    r, requests := first, [];
    ghost var buf := s.buf;
    var n := 3;
    while true
      invariant s.Valid() && s.phase == DofChunk && s.address == address && s.loadsz == loadsz && s.buf == buf
      invariant s.next % CHUNK == 0 && s.buf[..s.next] == Fetch(mem, address, s.next)
      invariant r == Retry(address + s.next, Min(CHUNK, loadsz - s.next))
      invariant Tile(requests, address, s.next)
      decreases loadsz - s.next
    {
      ghost var next := s.next;
      var l := r.len;
      RestDeliverable(loadsz, s.next);
      FetchJoin(mem, address, s.next, l);
      var input := Fetch(mem, r.base, l);
      assert input[..l] == input;
      requests := requests + [(r.base, l)];
      assert requests[..|requests| - 1] + [(r.base, l)] == requests;
      r := s.Call(arg, input, env(n));
      n := n + 1;
      if !r.Retry? { break; }
    }
  }
}
