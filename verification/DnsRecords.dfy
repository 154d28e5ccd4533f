// Questions and resource records. A record's type is fixed by its rdata.
module DnsRecords {
  import opened Bytes

  const CLASS_MASK: u16 := 0x7FFF
  const CLASS_CACHE_FLUSH: u16 := 0x8000

  type u15 = x: int | 0 <= x <= CLASS_MASK
  type ip4 = b: bytes | |b| == 4 witness [0, 0, 0, 0]
  type ip6 = b: bytes | |b| == 16 witness [0, 0, 0, 0, 0, 0, 0, 0, 0, 0, 0, 0, 0, 0, 0, 0]

  datatype RRType = A | CNAME | PTR | HINFO | TXT | AAAA | SRV | NSEC | ANY {
    function Code(): (c: u16)
      ensures FromCode(c) == Some(this)
    {
      match this
      case A => 1
      case CNAME => 5
      case PTR => 12
      case HINFO => 13
      case TXT => 16
      case AAAA => 28
      case SRV => 33
      case NSEC => 47
      case ANY => 255
    }
  }

  function FromCode(v: u16): Option<RRType> {
    match v
    case 1 => Some(A)
    case 5 => Some(CNAME)
    case 12 => Some(PTR)
    case 13 => Some(HINFO)
    case 16 => Some(TXT)
    case 28 => Some(AAAA)
    case 33 => Some(SRV)
    case 47 => Some(NSEC)
    case 255 => Some(ANY)
    case _ => None
  }

  datatype InterfaceId = InterfaceId(name: bytes, index: u32)

  datatype RData =
    | Addr4(ip: ip4, intf: InterfaceId)
    | Addr6(ip6: ip6, intf: InterfaceId)
    | Pointer(cname: bool, alias: bytes)
    | Srv(priority: u16, weight: u16, port: u16, host: bytes)
    | Txt(text: bytes)
  {
    function Type(): RRType {
      match this
      case Addr4(_, _) => A
      case Addr6(_, _) => AAAA
      case Pointer(cname, _) => if cname then CNAME else PTR
      case Srv(_, _, _, _) => SRV
      case Txt(_) => TXT
    }
  }

  datatype Question = Question(name: bytes, ty: RRType, rrclass: u15, flush: bool)

  /** How long a record lives. Times are UNIX milliseconds, the ttl is in seconds. */
  datatype Life = Life(ttl: u32, created: nat, expires: nat, refresh: nat) {
    predicate IsExpired(now: nat) {
      now >= expires
    }

    predicate ExpiresSoon(now: nat) {
      now + 1000 >= expires
    }

    predicate HalflifePassed(now: nat) {
      now > ExpirationTime(created, ttl, 50)
    }

    function RefreshNoMore(): Life {
      this.(refresh := ExpirationTime(created, ttl, 100))
    }

    predicate AsksRefresh(now: nat) {
      !IsExpired(now) && now >= refresh
    }

    /** The refresh times are 80, 85, 90 and 95 percent of the life; the last step is to give up. */
    function NextRefresh(): nat {
      if refresh == ExpirationTime(created, ttl, 80) then ExpirationTime(created, ttl, 85)
      else if refresh == ExpirationTime(created, ttl, 85) then ExpirationTime(created, ttl, 90)
      else if refresh == ExpirationTime(created, ttl, 90) then ExpirationTime(created, ttl, 95)
      else ExpirationTime(created, ttl, 100)
    }

    function RefreshMaybe(now: nat): Life {
      if AsksRefresh(now) then this.(refresh := NextRefresh()) else this
    }

    /** An address that a host resolver waits for is refreshed once, whatever step its schedule is at. */
    function RefreshOnce(now: nat): Life {
      if AsksRefresh(now) then RefreshNoMore() else this
    }

    function SetExpireSooner(at: nat): Life {
      if at < expires then this.(expires := at) else this
    }

    function ResetTtl(other: Life): Life {
      Life(other.ttl, other.created, ExpirationTime(other.created, other.ttl, 100),
           ExpirationTime(other.created, other.ttl, if other.ttl > 1 then 80 else 100))
    }

    /** The TTL left at `now`, in 32-bit arithmetic. */
    function UpdateTtl(now: nat): Life {
      if now > created then
        this.(ttl := (ttl - (now - created) / 1000 % 0x1_0000_0000) % 0x1_0000_0000)
      else this
    }
  }

  /** The UNIX time at which `percent` percent of a record's life is over. */
  function ExpirationTime(created: nat, ttl: u32, percent: nat): nat {
    created + ttl * percent * 10
  }

  function NewLife(ttl: u32, now: nat): Life {
    Life(ttl, now, ExpirationTime(now, ttl, 100), ExpirationTime(now, ttl, 80))
  }

  datatype Record = Record(
    name: bytes, rrclass: u15, flush: bool, life: Life, newName: Option<bytes>, rdata: RData)
  {
    /** The name given by conflict resolution if there is one. */
    function GetName(): bytes {
      match newName
      case Some(n) => n
      case None => name
    }

    function SetNewName(n: bytes): Record {
      this.(newName := if n == name then None else Some(n))
    }

    predicate IsAddress() {
      rdata.Addr4? || rdata.Addr6?
    }

    /** The same record except for its TTL and times. */
    predicate Matches(other: Record) {
      rdata == other.rdata && name == other.name && rrclass == other.rrclass && flush == other.flush
    }

    predicate RrdataMatch(other: Record) {
      match (rdata, other.rdata)
      case (Addr4(a, _), Addr4(b, _)) => a == b
      case (Addr6(a, _), Addr6(b, _)) => a == b
      case (Pointer(_, a), Pointer(_, b)) => a == b
      case (Srv(_, _, _, _), Srv(_, _, _, _)) => rdata == other.rdata
      case (Txt(a), Txt(b)) => a == b
      case _ => false
    }

    /** RFC 6762 section 7.1: `other` is the known answer of a querier. */
    predicate SuppressedByAnswer(other: Record) {
      Matches(other) && other.life.ttl > life.ttl / 2
    }
  }

  function NewRecord(name: bytes, rrclass: u16, ttl: u32, rdata: RData, now: nat): Record {
    Record(name, rrclass % CLASS_CACHE_FLUSH, rrclass >= CLASS_CACHE_FLUSH, NewLife(ttl, now), None, rdata)
  }

  /** The class field on the wire: the top bit asks for a cache flush. */
  function WireClass(rrclass: u15, flush: bool): u16 {
    if flush then rrclass + CLASS_CACHE_FLUSH else rrclass
  }

  /** Seconds left at `now`, in the 64-bit and 32-bit arithmetic of the source. */
  function RemainingTtl(created: nat, ttl: u32, now: nat): u32 {
    (ExpirationTime(created, ttl, 100) - now) % 0x1_0000_0000_0000_0000 / 1000 % 0x1_0000_0000
  }

  /** Records match exactly if they are the same up to their lives and new names. */
  lemma MatchesIff(a: Record, b: Record)
    ensures a.Matches(b) <==> a.(life := b.life, newName := b.newName) == b
  {
  }
}
