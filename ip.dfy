/** The integer side of luna/utils/ip.py: subnet bases from a CIDR prefix
    (section 3.1 of RFC 4632), membership of an address in a subnet, and
    the conversion between absolute addresses and addresses relative to a
    subnet base. The dotted text form is a `Quad` of four octets. */
module Ip {
  import opened Wrappers

  /** Everything ip.py raises is a RuntimeError; the kind records why. */
  datatype IpError = BadPrefix | BadAddress | NotInNetwork

  /** An address in numbers-and-dots form, one field per octet. */
  datatype Quad = Quad(a: int, b: int, c: int, d: int)

  /** An address argument, which ip.py accepts either as an integer or in
      numbers-and-dots form. */
  datatype Addr = Num(n: int) | Text(q: Quad)

  /** The number of 32-bit addresses. */
  const Two32: nat := 0x1_0000_0000

  function Pow2(n: nat): (r: nat)
    ensures r >= 1
  {
    if n == 0 then 1 else 2 * Pow2(n - 1)
  }

  /** Python's `a & b` for a non-negative `b`, bit by bit from the lowest;
      `/` and `%` by 2 floor, as in Python, so a negative `a` reads as its
      two's complement. */
  function BitAnd(a: int, b: nat): nat
    decreases b
  {
    if b == 0 then 0
    else 2 * BitAnd(a / 2, b / 2) + (if a % 2 == 1 && b % 2 == 1 then 1 else 0)
  }

  /** Python's `a ^ b` on non-negative integers. */
  function BitXor(a: nat, b: nat): nat
    decreases a + b
  {
    if a == 0 && b == 0 then 0
    else 2 * BitXor(a / 2, b / 2) + (if a % 2 != b % 2 then 1 else 0)
  }

  /** The netmask get_num_subnet computes for a valid prefix: all 32 bits
      XOR the bits below `(33 - prefix) - 1`, the shift reading as written
      since `-` binds tighter than `<<`. */
  function NetMask(prefix: int): nat
    requires 1 <= prefix <= 31
  {
    BitXor(Two32 - 1, Pow2((33 - prefix) - 1) - 1)
  }

  /** ntoa: the octets of a 32-bit address, most significant first;
      anything outside [0, 2^32) cannot be packed and raises. */
  function Ntoa(n: int): (r: Result<Quad, IpError>)
    ensures r.Ok? <==> 0 <= n < Two32
    ensures r.Err? ==> r.error == BadAddress
    ensures r.Ok? ==> Octet(r.value.a) && Octet(r.value.b) && Octet(r.value.c) && Octet(r.value.d)
  {
    if 0 <= n < Two32 then
      Ok(Quad(n / 0x100_0000, (n / 0x1_0000) % 0x100, (n / 0x100) % 0x100, n % 0x100))
    else Err(BadAddress)
  }

  predicate Octet(x: int)
  {
    0 <= x < 0x100
  }

  /** aton: the 32-bit number of an address whose four octets are in
      range; any other address raises. */
  function Aton(q: Quad): (r: Result<int, IpError>)
    ensures r.Ok? <==> Octet(q.a) && Octet(q.b) && Octet(q.c) && Octet(q.d)
    ensures r.Err? ==> r.error == BadAddress
    ensures r.Ok? ==> 0 <= r.value < Two32
  {
    if Octet(q.a) && Octet(q.b) && Octet(q.c) && Octet(q.d) then
      Ok(q.a * 0x100_0000 + q.b * 0x1_0000 + q.c * 0x100 + q.d)
    else Err(BadAddress)
  }

  /** The number of an address argument: itself when it is an integer,
      through aton otherwise. */
  function ToNum(ip: Addr): Result<int, IpError>
  {
    match ip
    case Num(n) => Ok(n)
    case Text(q) => Aton(q)
  }

  /** get_num_subnet: the prefix is checked first, then the address is
      converted, then masked. */
  function GetNumSubnet(ip: Addr, prefix: int): (r: Result<int, IpError>)
    ensures r.Err? <==> !(1 <= prefix <= 31) || ToNum(ip).Err?
    ensures !(1 <= prefix <= 31) ==> r == Err(BadPrefix)
    ensures 1 <= prefix <= 31 && ToNum(ip).Err? ==> r == Err(BadAddress)
  {
    if !(1 <= prefix < 32) then Err(BadPrefix)
    else
      match ToNum(ip)
      case Err(e) => Err(e)
      case Ok(n) => Ok(BitAnd(n, NetMask(prefix)))
  }

  /** ip_in_net: converts `ip` (which may raise), then compares the subnet
      bases of `net` and `ip`. */
  function IpInNet(ip: Addr, net: int, prefix: int): (r: Result<bool, IpError>)
    ensures r.Ok? <==> ToNum(ip).Ok? && 1 <= prefix <= 31
    ensures ToNum(ip).Err? ==> r == Err(BadAddress)
    ensures r.Ok? ==> (r.value <==> GetNumSubnet(ip, prefix) == GetNumSubnet(Num(net), prefix))
  {
    match ToNum(ip)
    case Err(e) => Err(e)
    case Ok(_) =>
      match GetNumSubnet(Num(net), prefix)
      case Err(e) => Err(e)
      case Ok(s1) =>
        match GetNumSubnet(ip, prefix)
        case Err(e) => Err(e)
        case Ok(s2) => Ok(s1 == s2)
  }

  /** atorel: the offset of a dotted address from `net`; raises when the
      address is not in `net/prefix` (the error message itself converts
      `net`, which raises first when `net` is out of range). */
  function Atorel(ip: Quad, net: int, prefix: int): (r: Result<int, IpError>)
    ensures r.Ok? <==>
      && Aton(ip).Ok?
      && 1 <= prefix <= 31
      && GetNumSubnet(Text(ip), prefix) == GetNumSubnet(Num(net), prefix)
    ensures r.Ok? ==> Aton(ip) == Ok(net + r.value)
  {
    match Aton(ip)
    case Err(e) => Err(e)
    case Ok(numIp) =>
      match IpInNet(Text(ip), net, prefix)
      case Err(e) => Err(e)
      case Ok(inNet) =>
        if !inNet then (if Ntoa(net).Err? then Err(BadAddress) else Err(NotInNetwork))
        else Ok(numIp - net)
  }

  /** reltoa: the dotted form of `net + rel`. */
  function Reltoa(net: int, rel: int): (r: Result<Quad, IpError>)
    ensures r.Ok? <==> 0 <= net + rel < Two32
    ensures r.Ok? ==> Aton(r.value) == Ok(net + rel)
  {
    NtoaAton(net + rel);
    Ntoa(net + rel)
  }

  // =======================================================================
  // Arithmetic behind the masks

  /** The quotient and remainder of a division are determined by any
      decomposition with a remainder in range. */
  lemma DivModUnique(x: int, d: int, q: int, r: int)
    requires d > 0 && 0 <= r < d && x == d * q + r
    ensures x / d == q && x % d == r
  {
    var q', r' := x / d, x % d;
    assert x == d * q' + r';
    assert d * (q' - q) == r - r';
    if q' > q {
      MulAtLeast(d, q' - q);
    } else if q' < q {
      MulAtLeast(d, q - q');
    }
  }

  /** The defining equation of Euclidean division. */
  lemma DivModSplit(x: int, d: int)
    requires d > 0
    ensures x == d * (x / d) + x % d && 0 <= x % d < d
  {
  }

  lemma MulAtLeast(d: int, k: int)
    requires d > 0 && k >= 1
    ensures d * k >= d
    decreases k
  {
    if k > 1 {
      MulAtLeast(d, k - 1);
      assert d * k == d * (k - 1) + d;
    }
  }

  /** 2^32, worked out four bits at a time. */
  lemma Pow2Of32()
    ensures Pow2(32) == Two32
  {
    assert Pow2(4) == 0x10;
    assert Pow2(8) == 0x100;
    assert Pow2(12) == 0x1000;
    assert Pow2(16) == 0x1_0000;
    assert Pow2(20) == 0x10_0000;
    assert Pow2(24) == 0x100_0000;
    assert Pow2(28) == 0x1000_0000;
  }

  lemma MulDouble(a: int, b: int)
    ensures a * (2 * b) == 2 * (a * b)
  {
  }

  lemma {:induction false} Pow2Add(m: nat, k: nat)
    ensures Pow2(m + k) == Pow2(m) * Pow2(k)
    decreases k
  {
    if k > 0 {
      Pow2Add(m, k - 1);
      MulDouble(Pow2(m), Pow2(k - 1));
      assert m + k - 1 == m + (k - 1);
    }
  }

  lemma {:induction false} Pow2Mono(m: nat, n: nat)
    requires m <= n
    ensures Pow2(m) <= Pow2(n)
    decreases n
  {
    if m < n {
      Pow2Mono(m, n - 1);
    }
  }

  /** Reducing modulo s * k and then modulo s is reducing modulo s. */
  lemma ModOfMultiple(x: int, s: int, k: int)
    requires s > 0 && k > 0
    ensures s * k > 0
    ensures x % (s * k) % s == x % s
  {
    MulAtLeast(s, k);
    var r := x % (s * k);
    DivModSplit(x, s * k);
    DivModSplit(r, s);
    var a, b := x / (s * k), r / s;
    assert (s * k) * a == s * (k * a);
    assert x == s * (k * a + b) + r % s;
    DivModUnique(x, s, k * a + b, r % s);
  }

  /** Rounding x, reduced modulo t, down to a multiple of m, where m divides
      t: the result lies in [0, t), is a multiple of m, and lies less than m
      below x's remainder. */
  lemma RoundDown(x: int, t: int, m: int, k: int)
    requires m > 0 && k > 0 && t == m * k
    ensures t > 0
    ensures var base := x % t - x % m;
      && 0 <= base <= x % t < t
      && x % t - base < m
      && base % m == 0
      && base % t == base
  {
    ModOfMultiple(x, m, k);
    RoundRemainder(x % t, t, m);
  }

  /** Rounding a remainder r in [0, t) down to a multiple of m keeps it in
      [0, t). */
  lemma RoundRemainder(r: int, t: int, m: int)
    requires 0 <= r < t && m > 0
    ensures var base := r - r % m;
      && 0 <= base <= r
      && r - base < m
      && base % m == 0
      && base % t == base
  {
    DivModSplit(r, m);
    var base := r - r % m;
    DivModUnique(base, m, r / m, 0);
    DivModUnique(base, t, 0, base);
  }

  /** The remainder modulo 2h, split at its lowest bit. */
  lemma ModOfDouble(x: int, y: int, t: int, h: int)
    requires h > 0 && t == 2 * h && y == x / 2
    ensures x % t == 2 * (y % h) + x % 2
  {
    var q, b := y / h, y % h;
    DivModSplit(x, 2);
    DivModSplit(y, h);
    assert x == t * q + (2 * b + x % 2);
    DivModUnique(x, t, q, 2 * b + x % 2);
  }

  lemma {:induction false} XorZero(a: nat)
    ensures BitXor(a, 0) == a
  {
    if a > 0 {
      XorZero(a / 2);
    }
  }

  /** The number whose n low bits are set. */
  function Ones(n: nat): nat
  {
    if n == 0 then 0 else 2 * Ones(n - 1) + 1
  }

  lemma {:induction false} OnesPow2(n: nat)
    ensures Ones(n) == Pow2(n) - 1
  {
    if n > 0 {
      OnesPow2(n - 1);
    }
  }

  /** All n low bits XOR the k lowest of them leaves bits k to n - 1. */
  lemma XorLowBits(n: nat, k: nat)
    requires k <= n
    ensures BitXor(Pow2(n) - 1, Pow2(k) - 1) == Pow2(n) - Pow2(k)
  {
    XorOnes(n, k);
    OnesPow2(n);
    OnesPow2(k);
  }

  lemma {:induction false} XorOnes(n: nat, k: nat)
    requires k <= n
    ensures BitXor(Ones(n), Ones(k)) == Ones(n) - Ones(k)
  {
    if k > 0 {
      XorOnes(n - 1, k - 1);
      XorOdd(Ones(n), Ones(k), Ones(n - 1), Ones(k - 1));
    } else {
      XorZero(Ones(n));
    }
  }

  /** Two odd numbers whose halves XOR to their difference do so too. */
  lemma XorOdd(a: nat, b: nat, ha: nat, hb: nat)
    requires a == 2 * ha + 1 && b == 2 * hb + 1
    requires BitXor(ha, hb) == ha - hb
    ensures BitXor(a, b) == a - b
  {
    DivModUnique(a, 2, ha, 1);
    DivModUnique(b, 2, hb, 1);
  }

  /** The n low bits of x, read off one at a time with Python's flooring
      `// 2` and `% 2`. */
  function Low(x: int, n: nat): int
    decreases n
  {
    if n == 0 then 0 else 2 * Low(x / 2, n - 1) + x % 2
  }

  /** The n low bits of x are its remainder by 2^n. */
  lemma {:induction false} LowIsMod(x: int, n: nat)
    ensures Low(x, n) == x % Pow2(n)
    decreases n
  {
    if n > 0 {
      LowIsMod(x / 2, n - 1);
      ModOfDouble(x, x / 2, Pow2(n), Pow2(n - 1));
    } else {
      DivModUnique(x, 1, x, 0);
    }
  }

  /** Masking with the n low bits keeps the n low bits. */
  lemma {:induction false} AndOnes(x: int, n: nat)
    ensures BitAnd(x, Ones(n)) == Low(x, n)
    decreases n
  {
    if n > 0 {
      AndOnes(x / 2, n - 1);
      DivModUnique(Ones(n), 2, Ones(n - 1), 1);
    }
  }

  /** Masking with bits m to n - 1 keeps the n low bits less the m low
      ones. */
  lemma {:induction false} AndOnesRange(x: int, n: nat, m: nat)
    requires m <= n
    ensures Ones(m) <= Ones(n)
    ensures BitAnd(x, Ones(n) - Ones(m)) == Low(x, n) - Low(x, m)
    decreases n
  {
    if m == 0 {
      AndOnes(x, n);
    } else {
      AndOnesRange(x / 2, n - 1, m - 1);
      DivModUnique(Ones(n) - Ones(m), 2, Ones(n - 1) - Ones(m - 1), 0);
    }
  }

  /** Masking with bits m to n - 1 keeps x's remainder by 2^n less its
      remainder by 2^m. */
  lemma AndBitRange(x: int, n: nat, m: nat)
    requires m <= n
    ensures Pow2(m) <= Pow2(n)
    ensures BitAnd(x, Pow2(n) - Pow2(m)) == x % Pow2(n) - x % Pow2(m)
  {
    AndOnesRange(x, n, m);
    OnesPow2(n);
    OnesPow2(m);
    LowIsMod(x, n);
    LowIsMod(x, m);
  }

  // =======================================================================
  // get_num_subnet

  /** The size of a subnet with the given prefix: 2^(32 - prefix). */
  function HostSpan(prefix: int): (r: nat)
    requires 1 <= prefix <= 31
    ensures r >= 2
  {
    Pow2(32 - prefix)
  }

  /** All 32 bits XOR the w lowest leaves the 32 - w top bits. */
  lemma XorTopBits(w: nat)
    requires w <= 32
    ensures BitXor(Two32 - 1, Pow2(w) - 1) == Two32 - Pow2(w)
  {
    XorLowBits(32, w);
    Pow2Of32();
  }

  /** The mask has exactly the top `prefix` of 32 bits set. */
  lemma NetMaskValue(prefix: int)
    requires 1 <= prefix <= 31
    ensures NetMask(prefix) == Two32 - HostSpan(prefix)
  {
    XorTopBits(32 - prefix);
  }

  /** A subnet's size divides the number of 32-bit addresses. */
  lemma HostSpanDivides(prefix: int)
    requires 1 <= prefix <= 31
    ensures Two32 == HostSpan(prefix) * Pow2(prefix)
  {
    Pow2Of32();
    Pow2Add(32 - prefix, prefix);
  }

  /** The base get_num_subnet computes from an integer: the address reduced
      to 32 bits with its low 32 - prefix bits cleared. */
  lemma SubnetBase(n: int, prefix: int)
    requires 1 <= prefix <= 31
    ensures GetNumSubnet(Num(n), prefix) == Ok(n % Two32 - n % HostSpan(prefix))
  {
    NetMaskValue(prefix);
    AndTopBits(n, 32 - prefix);
  }

  /** Masking with the top 32 - w of 32 bits. */
  lemma AndTopBits(x: int, w: nat)
    requires w <= 32
    ensures Pow2(w) <= Two32
    ensures BitAnd(x, Two32 - Pow2(w)) == x % Two32 - x % Pow2(w)
  {
    AndBitRange(x, 32, w);
    Pow2Of32();
  }

  /** The subnet base of an integer is a 32-bit multiple of the subnet
      size, at most the address reduced to 32 bits and less than one subnet
      below it; for a 32-bit address that is the address itself. */
  lemma SubnetBounds(n: int, prefix: int)
    requires 1 <= prefix <= 31
    ensures GetNumSubnet(Num(n), prefix).Ok?
    ensures var base := GetNumSubnet(Num(n), prefix).value;
      && 0 <= base <= n % Two32 < Two32
      && n % Two32 - base < HostSpan(prefix)
      && base % HostSpan(prefix) == 0
    ensures 0 <= n < Two32 ==> n % Two32 == n
  {
    SubnetBase(n, prefix);
    HostSpanDivides(prefix);
    RoundDown(n, Two32, HostSpan(prefix), Pow2(prefix));
    if 0 <= n < Two32 {
      DivModUnique(n, Two32, 0, n);
    }
  }

  /** Taking the subnet base of a subnet base changes nothing; this holds
      for every integer, because the base is always a 32-bit number. */
  lemma SubnetIdempotent(n: int, prefix: int)
    requires 1 <= prefix <= 31
    ensures GetNumSubnet(Num(n), prefix).Ok?
    ensures var base := GetNumSubnet(Num(n), prefix).value;
      GetNumSubnet(Num(base), prefix) == Ok(base)
  {
    SubnetBase(n, prefix);
    HostSpanDivides(prefix);
    RoundDown(n, Two32, HostSpan(prefix), Pow2(prefix));
    SubnetBase(n % Two32 - n % HostSpan(prefix), prefix);
  }

  /** get_num_subnet fails exactly for a prefix outside 1..31 or an address
      aton rejects. */
  lemma GetNumSubnetErrors(ip: Addr, prefix: int)
    ensures GetNumSubnet(ip, prefix).Err? <==> !(1 <= prefix <= 31) || ToNum(ip).Err?
    ensures !(1 <= prefix <= 31) ==> GetNumSubnet(ip, prefix) == Err(BadPrefix)
  {
  }

  // =======================================================================
  // ip_in_net

  /** ip_in_net succeeds exactly for a convertible address and a valid
      prefix, and then answers whether both have the same subnet base. */
  lemma IpInNetSameBase(ip: Addr, net: int, prefix: int)
    ensures IpInNet(ip, net, prefix).Ok? <==> ToNum(ip).Ok? && 1 <= prefix <= 31
    ensures IpInNet(ip, net, prefix).Ok? ==>
      (IpInNet(ip, net, prefix).value <==> GetNumSubnet(ip, prefix) == GetNumSubnet(Num(net), prefix))
  {
  }

  /** For 32-bit numbers, sharing the base of `net` means lying in the
      subnet's block of 2^(32 - prefix) addresses from that base. */
  lemma InNetIsInBlock(n: int, net: int, prefix: int)
    requires 1 <= prefix <= 31 && 0 <= n < Two32 && 0 <= net < Two32
    ensures GetNumSubnet(Num(net), prefix).Ok?
    ensures var base := GetNumSubnet(Num(net), prefix).value;
      IpInNet(Num(n), net, prefix) == Ok(base <= n < base + HostSpan(prefix))
  {
    SubnetBounds(net, prefix);
    SubnetBounds(n, prefix);
    SubnetBase(n, prefix);
    var m := HostSpan(prefix);
    var base := GetNumSubnet(Num(net), prefix).value;
    if base <= n < base + m {
      DivModSplit(base, m);
      DivModUnique(n, m, base / m, n - base);
    }
  }

  // =======================================================================
  // aton, ntoa, atorel and reltoa

  /** ntoa accepts exactly the 32-bit numbers, and aton undoes it. */
  lemma NtoaAton(n: int)
    ensures Ntoa(n).Ok? <==> 0 <= n < Two32
    ensures Ntoa(n).Ok? ==> Aton(Ntoa(n).value) == Ok(n)
  {
    if 0 <= n < Two32 {
      var a, r := n / 0x100_0000, n % 0x100_0000;
      var b, r' := r / 0x1_0000, r % 0x1_0000;
      var c, d := r' / 0x100, r' % 0x100;
      DivModUnique(n, 0x1_0000, a * 0x100 + b, r');
      DivModUnique(n / 0x1_0000, 0x100, a, b);
      DivModUnique(n, 0x100, a * 0x1_0000 + b * 0x100 + c, d);
      DivModUnique(n / 0x100, 0x100, a * 0x100 + b, c);
    }
  }

  /** aton accepts exactly the addresses with four octets in range, and
      ntoa undoes it. */
  lemma AtonNtoa(q: Quad)
    ensures Aton(q).Ok? <==> Octet(q.a) && Octet(q.b) && Octet(q.c) && Octet(q.d)
    ensures Aton(q).Ok? ==> 0 <= Aton(q).value < Two32 && Ntoa(Aton(q).value) == Ok(q)
  {
    if Aton(q).Ok? {
      var n := Aton(q).value;
      DivModUnique(n, 0x100_0000, q.a, q.b * 0x1_0000 + q.c * 0x100 + q.d);
      DivModUnique(n, 0x1_0000, q.a * 0x100 + q.b, q.c * 0x100 + q.d);
      DivModUnique(n / 0x1_0000, 0x100, q.a, q.b);
      DivModUnique(n, 0x100, q.a * 0x1_0000 + q.b * 0x100 + q.c, q.d);
      DivModUnique(n / 0x100, 0x100, q.a * 0x100 + q.b, q.c);
    }
  }

  /** atorel fails exactly when aton does, the prefix is invalid, or the
      address lies outside the subnet. */
  lemma AtorelErrors(ip: Quad, net: int, prefix: int)
    ensures Atorel(ip, net, prefix).Err? <==>
      || Aton(ip).Err?
      || !(1 <= prefix <= 31)
      || GetNumSubnet(Text(ip), prefix) != GetNumSubnet(Num(net), prefix)
  {
    IpInNetSameBase(Text(ip), net, prefix);
  }

  /** The offset atorel returns, added to the base, is the address again,
      and reltoa turns it back into the dotted form it came from. */
  lemma AtorelReltoa(ip: Quad, net: int, prefix: int)
    requires Atorel(ip, net, prefix).Ok?
    ensures Aton(ip) == Ok(net + Atorel(ip, net, prefix).value)
    ensures Reltoa(net, Atorel(ip, net, prefix).value) == Ok(ip)
  {
    AtonNtoa(ip);
  }

  /** Relative to a subnet base, atorel's offsets lie in 0 .. 2^(32 - prefix) - 1. */
  lemma AtorelInBlock(ip: Quad, net: int, prefix: int)
    requires Atorel(ip, net, prefix).Ok?
    requires 0 <= net < Two32 && GetNumSubnet(Num(net), prefix) == Ok(net)
    ensures 0 <= Atorel(ip, net, prefix).value < HostSpan(prefix)
  {
    AtonNtoa(ip);
    AtorelErrors(ip, net, prefix);
    var n := Aton(ip).value;
    InNetIsInBlock(n, net, prefix);
    IpInNetSameBase(Num(n), net, prefix);
  }

  // =======================================================================
  // Concrete cases

  /** aton of 10.0.0.1 is 167772161 and ntoa gives it back; 256.0.0.1 and
      4294967296 are rejected. */
  lemma ConversionExamples()
    ensures Aton(Quad(10, 0, 0, 1)) == Ok(167772161)
    ensures Ntoa(167772161) == Ok(Quad(10, 0, 0, 1))
    ensures Aton(Quad(256, 0, 0, 1)).Err?
    ensures Ntoa(4294967296).Err?
  {
    AtonNtoa(Quad(10, 0, 0, 1));
  }

  /** 10.0.0.6/24 has base 167772160 (10.0.0.0); prefix 33 is rejected, and
      so is prefix 32 although the error message names [1..32]; 256.0.0.1
      is rejected under a valid prefix. */
  lemma SubnetExamples()
    ensures GetNumSubnet(Text(Quad(10, 0, 0, 6)), 24) == Ok(167772160)
    ensures GetNumSubnet(Text(Quad(10, 0, 0, 1)), 33) == Err(BadPrefix)
    ensures GetNumSubnet(Text(Quad(10, 0, 0, 1)), 32) == Err(BadPrefix)
    ensures GetNumSubnet(Text(Quad(256, 0, 0, 1)), 2) == Err(BadAddress)
  {
    SubnetBase(167772166, 24);
    assert HostSpan(24) == 256;
    DivModUnique(167772166, Two32, 0, 167772166);
    DivModUnique(167772166, 256, 655360, 6);
  }
}
