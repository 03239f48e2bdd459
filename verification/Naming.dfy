/** The keys under which services are published: printing them, parsing them
    back, and the prefixes that select the keys of one service. */
module Namings {
  const NAME_SERVICE_DIR := "NameService"
  const MAX_INT := 0x7fff_ffff_ffff_ffff

  datatype ServiceInfo = ServiceInfo(name: string, serviceId: string, host: string, port: int)

  /** `Panic` is the read of a third part that is not there. */
  datatype Parsed = Service(info: ServiceInfo) | NotAService | Panic

  ghost predicate Free(s: string, c: char) {
    forall i :: 0 <= i < |s| ==> s[i] != c
  }

  // ----- decimal numbers -----

  predicate IsDigit(c: char) { '0' <= c <= '9' }

  predicate IsDecimal(s: string) {
    s != [] && forall i :: 0 <= i < |s| ==> IsDigit(s[i])
  }

  function Digit(c: char): (d: int)
    requires IsDigit(c)
    ensures 0 <= d <= 9
  {
    c as int - '0' as int
  }

  function DigitsOf(n: nat): (s: string)
    ensures s != [] && forall i :: 0 <= i < |s| ==> IsDigit(s[i])
  {
    var last := ['0' + (n % 10) as char];
    if n < 10 then last else DigitsOf(n / 10) + last
  }

  function ValueOf(s: string): (n: int)
    requires forall i :: 0 <= i < |s| ==> IsDigit(s[i])
    ensures n >= 0
  {
    if s == [] then 0 else ValueOf(s[..|s| - 1]) * 10 + Digit(s[|s| - 1])
  }

  function Itoa(n: int): string {
    if n < 0 then "-" + DigitsOf(-n) else DigitsOf(n)
  }

  datatype Number = Number(value: int) | NotANumber

  /** An optional sign, at least one digit, and a value of 64 bits. */
  function Atoi(s: string): Number {
    var signed := s != [] && (s[0] == '-' || s[0] == '+');
    var digits := if signed then s[1..] else s;
    if !IsDecimal(digits) then NotANumber else
    var value := if signed && s[0] == '-' then -ValueOf(digits) else ValueOf(digits);
    if -MAX_INT - 1 <= value <= MAX_INT then Number(value) else NotANumber
  }

  lemma {:induction false} ValueOfDigits(n: nat)
    ensures ValueOf(DigitsOf(n)) == n
  {
    var last := ['0' + (n % 10) as char];
    if n < 10 {
      assert DigitsOf(n)[..0] == [];
    } else {
      ValueOfDigits(n / 10);
      assert DigitsOf(n)[..|DigitsOf(n)| - 1] == DigitsOf(n / 10);
    }
  }

  function Pow10(n: nat): (p: nat)
    ensures p >= 1
  {
    if n == 0 then 1 else 10 * Pow10(n - 1)
  }

  lemma OneMoreDigit(x: int, p: int, y: int)
    ensures (x * p + y) * 10 == x * (10 * p) + y * 10
  {
  }

  /** The value is the decimal one: each digit has the weight of its place. */
  lemma {:induction false} ValueOfFirst(s: string)
    requires s != [] && forall i :: 0 <= i < |s| ==> IsDigit(s[i])
    ensures ValueOf(s) == (s[0] as int - 48) * Pow10(|s| - 1) + ValueOf(s[1..])
  {
    var k := |s| - 1;
    if k == 0 {
      assert s[..0] == [] && s[1..] == [];
    } else {
      ValueOfFirst(s[..k]);
      var middle := s[..k][1..];
      assert middle == s[1..][..k-1] && s[1..][k-1] == s[k];
      OneMoreDigit(s[0] as int - 48, Pow10(k - 1), ValueOf(middle));
    }
  }

  /** A printed number does not start with a zero, unless it is zero. */
  lemma {:induction false} DigitsLead(n: nat)
    ensures DigitsOf(n)[0] == '0' <==> n == 0
    ensures n == 0 ==> DigitsOf(n) == "0"
  {
    if 10 <= n {
      DigitsLead(n / 10);
    }
  }

  lemma ItoaExamples()
    ensures Itoa(8080) == "8080" && Itoa(0) == "0" && Itoa(-120) == "-120"
  {
    assert DigitsOf(8) == "8" && DigitsOf(80) == "80" && DigitsOf(808) == "808" && DigitsOf(8080) == "8080";
    assert DigitsOf(1) == "1" && DigitsOf(12) == "12" && DigitsOf(120) == "120";
  }

  /** What parses as a number: digits with at most one sign before them, of a value
      that fits 64 bits. */
  lemma AtoiExact(s: string, v: int)
    ensures Atoi(s) == Number(v) <==>
            && -0x8000_0000_0000_0000 <= v <= 0x7fff_ffff_ffff_ffff
            && exists digits :: IsDecimal(digits) &&
                 (((s == digits || s == "+" + digits) && v == ValueOf(digits)) ||
                   (s == "-" + digits && v == -ValueOf(digits)))
  {
    var signed := s != [] && (s[0] == '-' || s[0] == '+');
    var digits := if signed then s[1..] else s;
    if Atoi(s) == Number(v) {
      assert IsDecimal(digits);
      assert signed ==> s == [s[0]] + digits;
    }
    if d :| IsDecimal(d) && (s == d || s == "+" + d || s == "-" + d) {
      assert IsDigit(d[0]);
      assert d == digits;
    }
  }

  /** A number prints and parses back exactly when it fits 64 bits. */
  lemma AtoiItoa(n: int)
    ensures Atoi(Itoa(n)) == if -MAX_INT - 1 <= n <= MAX_INT then Number(n) else NotANumber
  {
    var digits := DigitsOf(if n < 0 then -n else n);
    ValueOfDigits(if n < 0 then -n else n);
    assert digits == if n < 0 then Itoa(n)[1..] else Itoa(n);
    assert IsDigit(digits[0]);
  }

  lemma ItoaInjective(a: int, b: int)
    requires Itoa(a) == Itoa(b)
    ensures a == b
  {
    var x, y := DigitsOf(if a < 0 then -a else a), DigitsOf(if b < 0 then -b else b);
    ValueOfDigits(if a < 0 then -a else a);
    ValueOfDigits(if b < 0 then -b else b);
    assert IsDigit(x[0]) && IsDigit(y[0]);
    assert x == if a < 0 then Itoa(a)[1..] else Itoa(a);
    assert y == if b < 0 then Itoa(b)[1..] else Itoa(b);
  }

  lemma ItoaFree(n: int, c: char)
    requires !IsDigit(c) && c != '-'
    ensures Free(Itoa(n), c)
  {
    var digits := DigitsOf(if n < 0 then -n else n);
    assert forall i :: 0 <= i < |digits| ==> IsDigit(digits[i]);
  }

  // ----- cutting strings -----

  /** The pieces between occurrences of c; one piece when there is none. */
  function Split(s: string, c: char): (parts: seq<string>)
    ensures |parts| > 0
    ensures forall k :: 0 <= k < |parts| ==> Free(parts[k], c)
  {
    if s == [] then [""] else
    var others := Split(s[1..], c);
    if s[0] == c then [""] + others else [[s[0]] + others[0]] + others[1..]
  }

  lemma {:induction false} SplitPiece(a: string, x: string, c: char)
    requires Free(a, c)
    ensures Split(a, c) == [a]
    ensures Split(a + [c] + x, c) == [a] + Split(x, c)
  {
    var s := a + [c] + x;
    if a == [] {
      assert s[1..] == x;
    } else {
      var b := a[1..];
      SplitPiece(b, x, c);
      assert s[1..] == b + [c] + x;
      assert [a[0]] + b == a;
    }
  }

  lemma {:induction false} SplitFree(s: string, c: char, d: char)
    requires Free(s, d)
    ensures forall k :: 0 <= k < |Split(s, c)| ==> Free(Split(s, c)[k], d)
  {
    if s != [] {
      SplitFree(s[1..], c, d);
    }
  }

  lemma {:induction false} SplitThree(a: string, b: string, x: string, c: char)
    requires Free(a, c) && Free(b, c) && Free(x, c)
    ensures Split(a + [c] + (b + [c] + x), c) == [a, b, x]
  {
    SplitPiece(a, b + [c] + x, c);
    SplitPiece(b, x, c);
    SplitPiece(x, "", c);
  }

  function Count(s: string, c: char): nat {
    if s == [] then 0 else (if s[0] == c then 1 else 0) + Count(s[1..], c)
  }

  lemma {:induction false} SplitCount(s: string, c: char)
    ensures |Split(s, c)| == Count(s, c) + 1
  {
    if s != [] {
      SplitCount(s[1..], c);
    }
  }

  lemma {:induction false} CountConcat(a: string, b: string, c: char)
    ensures Count(a + b, c) == Count(a, c) + Count(b, c)
  {
    if a == [] {
      assert a + b == b;
    } else {
      CountConcat(a[1..], b, c);
      assert (a + b)[1..] == a[1..] + b;
    }
  }

  lemma CountJoin(a: string, sep: char, b: string, c: char)
    ensures Count(a + [sep] + b, c) == Count(a, c) + (if sep == c then 1 else 0) + Count(b, c)
  {
    CountConcat(a + [sep], b, c);
    CountConcat(a, [sep], c);
    assert Count([sep], c) == (if sep == c then 1 else 0) + Count([], c);
  }

  lemma {:induction false} CountFree(s: string, c: char)
    ensures Count(s, c) == 0 <==> Free(s, c)
  {
    if s != [] {
      CountFree(s[1..], c);
      assert s == [s[0]] + s[1..];
    }
  }

  /** Where the part after the last c starts. */
  function LastPart(s: string, c: char): (y: nat)
    ensures y <= |s| && (y == 0 || s[y-1] == c) && forall i :: y <= i < |s| ==> s[i] != c
  {
    if s == [] then 0 else
    var k := |s| - 1;
    if s[k] == c then |s| else LastPart(s[..k], c)
  }

  /** What stands after the last c. */
  function AfterLast(s: string, c: char): (r: string)
    ensures Free(r, c)
  {
    s[LastPart(s, c)..]
  }

  lemma LastPartUnique(s: string, c: char, y: nat)
    requires y <= |s| && (y == 0 || s[y-1] == c) && forall i :: y <= i < |s| ==> s[i] != c
    ensures LastPart(s, c) == y
  {
  }

  lemma AfterLastMore(a: string, b: string, c: char)
    requires Free(b, c)
    ensures AfterLast(a + b, c) == AfterLast(a, c) + b
  {
    LastPartUnique(a + b, c, LastPart(a, c));
  }

  lemma AfterLastWithin(a: string, b: string, c: char)
    requires !Free(b, c)
    ensures AfterLast(a + b, c) == AfterLast(b, c)
  {
    var y := LastPart(b, c);
    assert y != 0;
    LastPartUnique(a + b, c, |a| + y);
  }

  lemma AfterLastOf(left: string, right: string, c: char)
    requires Free(right, c)
    ensures AfterLast(left + [c] + right, c) == right
  {
    AfterLastMore(left + [c], right, c);
    assert AfterLast(left + [c], c) == [];
  }

  // ----- keys -----

  function NameDir(name: string): string { NAME_SERVICE_DIR + "/" + name }

  /** The last component of a key. */
  function BaseOf(info: ServiceInfo): string {
    info.name + "_" + (info.host + "_" + Itoa(info.port))
  }

  function KeyOf(info: ServiceInfo): string {
    NameDir(info.name) + "/" + info.name + "/" + BaseOf(info)
  }

  lemma KeyLayout(info: ServiceInfo)
    ensures KeyOf(info) == "NameService/" + info.name + "/" + info.name + "/" +
                           info.name + "_" + info.host + "_" + Itoa(info.port)
  {
  }

  function FromKey(key: string, value: string): Parsed {
    var parts := Split(AfterLast(key, '/'), '_');
    if |parts| < 3 then Panic else
    var port := Atoi(parts[2]);
    if |parts| != 3 || port.NotANumber? then NotAService
    else Service(ServiceInfo(parts[0], value, parts[1], port.value))
  }

  /** A published service is found again unchanged exactly when its name and
      host hold no separator and its port fits 64 bits. */
  ghost predicate Printable(info: ServiceInfo) {
    && Free(info.name, '_') && Free(info.name, '/')
    && Free(info.host, '_') && Free(info.host, '/')
    && -MAX_INT - 1 <= info.port <= MAX_INT
  }

  function Join(parts: seq<string>, c: char): string
    requires parts != []
  {
    if |parts| == 1 then parts[0] else parts[0] + [c] + Join(parts[1..], c)
  }

  lemma {:induction false} JoinSplit(s: string, c: char)
    ensures Join(Split(s, c), c) == s
  {
    if s != [] {
      var others, parts := Split(s[1..], c), Split(s, c);
      JoinSplit(s[1..], c);
      assert s == [s[0]] + s[1..];
      assert parts[1..] == if s[0] == c then others else others[1..];
    }
  }

  lemma JoinThree(parts: seq<string>, c: char)
    requires |parts| == 3
    ensures Join(parts, c) == parts[0] + [c] + (parts[1] + [c] + parts[2])
  {
    var others := parts[1..];
    assert others[1..] == [parts[2]];
    assert Join(others, c) == others[0] + [c] + Join([parts[2]], c);
  }

  /** The number part of a key for a service. */
  ghost predicate PortPart(base: string, info: ServiceInfo, p: string) {
    base == info.name + "_" + info.host + "_" + p && Atoi(p) == Number(info.port)
  }

  lemma NumberFree(p: string, c: char)
    requires Atoi(p).Number? && !IsDigit(c) && c != '-' && c != '+'
    ensures Free(p, c)
  {
    AtoiExact(p, Atoi(p).value);
    var digits :| IsDecimal(digits) && (p == digits || p == "+" + digits || p == "-" + digits);
  }

  lemma PartsOfService(base: string, info: ServiceInfo, p: string)
    requires Free(info.name, '_') && Free(info.host, '_') && PortPart(base, info, p)
    ensures Split(base, '_') == [info.name, info.host, p]
  {
    NumberFree(p, '_');
    SplitThree(info.name, info.host, p, '_');
    assert base == info.name + "_" + (info.host + "_" + p);
  }

  lemma ServiceParts(key: string, value: string, info: ServiceInfo)
    requires FromKey(key, value) == Service(info)
    ensures PortPart(AfterLast(key, '/'), info, Split(AfterLast(key, '/'), '_')[2])
  {
    var parts := Split(AfterLast(key, '/'), '_');
    JoinSplit(AfterLast(key, '/'), '_');
    JoinThree(parts, '_');
    assert parts[0] + "_" + (parts[1] + "_" + parts[2]) == parts[0] + "_" + parts[1] + "_" + parts[2];
  }

  /** Which keys are services, and which: the last component is a name, a host and a
      number, joined by the only two underscores it has before the number. */
  lemma FromKeyExact(key: string, value: string, info: ServiceInfo)
    ensures FromKey(key, value) == Service(info) <==>
            && value == info.serviceId && Free(info.name, '_') && Free(info.host, '_')
            && exists p :: PortPart(AfterLast(key, '/'), info, p)
  {
    if FromKey(key, value) == Service(info) {
      ServiceParts(key, value, info);
    }
    if p :| Free(info.name, '_') && Free(info.host, '_') && PortPart(AfterLast(key, '/'), info, p) {
      PartsOfService(AfterLast(key, '/'), info, p);
    }
  }

  /** So a key with more than two underscores in its last component is skipped. */
  lemma ServiceUnderscores(key: string, value: string)
    ensures var parts := Split(AfterLast(key, '/'), '_');
            FromKey(key, value).NotAService? <==> 3 < |parts| || (|parts| == 3 && Atoi(parts[2]).NotANumber?)
    ensures FromKey(key, value).Service? ==> Count(AfterLast(key, '/'), '_') == 2
  {
    SplitCount(AfterLast(key, '/'), '_');
  }

  lemma AtoiRange(s: string)
    ensures Atoi(s).Number? ==> -MAX_INT - 1 <= Atoi(s).value <= MAX_INT
  {
  }

  lemma FromKeyPrintable(key: string, value: string)
    requires FromKey(key, value).Service?
    ensures Printable(FromKey(key, value).info)
  {
    var base := AfterLast(key, '/');
    SplitFree(base, '_', '/');
    AtoiRange(Split(base, '_')[2]);
  }

  lemma BaseFree(info: ServiceInfo)
    requires Printable(info)
    ensures Free(BaseOf(info), '/')
    ensures Split(BaseOf(info), '_') == [info.name, info.host, Itoa(info.port)]
  {
    ItoaFree(info.port, '_');
    ItoaFree(info.port, '/');
    SplitThree(info.name, info.host, Itoa(info.port), '_');
  }

  lemma PrintableFromKey(info: ServiceInfo)
    requires Printable(info)
    ensures FromKey(KeyOf(info), info.serviceId) == Service(info)
  {
    AtoiItoa(info.port);
    BaseFree(info);
    AfterLastOf(NameDir(info.name) + "/" + info.name, BaseOf(info), '/');
  }

  lemma KeyRoundTrip(info: ServiceInfo)
    ensures FromKey(KeyOf(info), info.serviceId) == Service(info) <==> Printable(info)
  {
    if Printable(info) {
      PrintableFromKey(info);
    }
    if FromKey(KeyOf(info), info.serviceId) == Service(info) {
      FromKeyPrintable(KeyOf(info), info.serviceId);
    }
  }

  /** The parser stops on a key whose last component holds fewer than two
      underscores, and on no other. */
  lemma ParserPanics(key: string, value: string)
    ensures FromKey(key, value).Panic? <==> Count(AfterLast(key, '/'), '_') < 2
  {
    SplitCount(AfterLast(key, '/'), '_');
  }

  /** Printable services that differ in name, host or port have different keys. */
  lemma KeysDistinct(a: ServiceInfo, b: ServiceInfo)
    requires Printable(a) && Printable(b) && KeyOf(a) == KeyOf(b)
    ensures a == b.(serviceId := a.serviceId)
  {
    PrintableFromKey(a);
    PrintableFromKey(b.(serviceId := a.serviceId));
  }

  // ----- prefixes -----

  function FindPrefix(name: string): string { NameDir(name) + "/" + name }

  function SubscribePrefix(name: string): string { NameDir(name) + "/" + name + "/" + name }

  /** Two strings cut at their first c. */
  lemma FirstPart(a: string, x: string, b: string, y: string, c: char)
    requires Free(a, c) && Free(b, c)
    requires a + [c] + x <= b + [c] + y
    ensures a == b && x <= y
  {
    var s, t := a + [c] + x, b + [c] + y;
    assert s == t[..|s|];
    assert s[|a|] == c && t[|b|] == c;
    assert forall i :: 0 <= i < |a| ==> s[i] == a[i];
    assert forall i :: 0 <= i < |b| ==> t[i] == b[i];
    assert |a| == |b|;
    assert a == s[..|a|] && b == t[..|b|];
    assert x == s[|a| + 1..] && y == t[|b| + 1..];
  }

  /** A prefix free of c stays within the part before the first c. */
  lemma WithinPart(a: string, b: string, y: string, c: char)
    requires Free(a, c)
    ensures a <= b + [c] + y <==> a <= b
  {
    var t := b + [c] + y;
    assert t[|b|] == c && t[..|b|] == b;
    if a <= t {
      assert forall i :: 0 <= i < |a| ==> a[i] == t[i];
      assert |a| <= |b|;
      assert a == t[..|a|];
    }
  }

  lemma Strip(a: string, x: string, y: string)
    ensures a + x <= a + y <==> x <= y
  {
    assert (a + x)[|a|..] == x && (a + y)[|a|..] == y;
    if a + x <= a + y {
      assert x == (a + y)[|a|..|a| + |x|];
    }
  }

  /** Where s is cut at its first c: at the end when there is none. */
  function FirstAt(s: string, c: char): (i: nat)
    ensures i <= |s| && Free(s[..i], c) && (i < |s| ==> s[i] == c)
  {
    if s == [] || s[0] == c then 0 else 1 + FirstAt(s[1..], c)
  }

  lemma KeyTail(info: ServiceInfo)
    ensures KeyOf(info) == NAME_SERVICE_DIR + "/" + (info.name + "/" + (info.name + "/" + BaseOf(info)))
  {
  }

  lemma PairSelects(n: string, m: string, x: string)
    requires Free(n, '/')
    ensures n + "/" + n <= m + "/" + x <==> (m == n && n <= x) || n + "/" + n <= m
  {
    var i := FirstAt(m, '/');
    assert (n + "/" + n)[|n|] == '/';
    if i == |m| {
      assert m[..i] == m;
      if n + "/" + n <= m + "/" + x {
        FirstPart(n, n, m, x, '/');
      }
      if m == n {
        Strip(n + "/", n, x);
      }
    } else {
      var more := m[i + 1..];
      assert m == m[..i] + "/" + more && m + "/" + x == m[..i] + "/" + (more + "/" + x);
      if n + "/" + n <= m + "/" + x {
        FirstPart(n, n, m[..i], more + "/" + x, '/');
        WithinPart(n, more, x, '/');
        Strip(n + "/", n, more);
      }
    }
  }

  /** Whatever characters the published name holds, the prefix that looks for a
      name without '/' selects its key in these cases and no others. */
  lemma FindSelects(name: string, info: ServiceInfo)
    requires Free(name, '/')
    ensures FindPrefix(name) <= KeyOf(info) <==> info.name == name || name + "/" + name <= info.name
  {
    var pair, tail := name + "/" + name, info.name + "/" + BaseOf(info);
    KeyTail(info);
    assert FindPrefix(name) == NAME_SERVICE_DIR + "/" + pair;
    Strip(NAME_SERVICE_DIR + "/", pair, info.name + "/" + tail);
    PairSelects(name, info.name, tail);
  }

  /** A prefix of two parts, the first one whole. */
  lemma FirstThen(n: string, q: string, m: string, x: string)
    requires Free(n, '/') && Free(m, '/')
    ensures n + "/" + q <= m + "/" + x <==> m == n && q <= x
  {
    if n + "/" + q <= m + "/" + x {
      FirstPart(n, q, m, x, '/');
    }
    if m == n {
      Strip(n + "/", q, x);
    }
  }

  lemma FirstExact(n: string, q: string, m: string, x: string)
    requires Free(n, '/') && Free(m, '/')
    ensures n + "/" + q == m + "/" + x <==> m == n && q == x
  {
    FirstThen(n, q, m, x);
    FirstThen(m, x, n, q);
  }

  lemma TripleSelects(n: string, m: string, base: string)
    requires Free(n, '/') && m <= base
    ensures n + "/" + (n + "/" + n) <= m + "/" + (m + "/" + base)
      <==> m == n || m == n + "/" + n || n + "/" + (n + "/" + n) <= m
  {
    var i, pair := FirstAt(m, '/'), n + "/" + n;
    assert pair[|n|] == '/' && (n + "/" + pair)[|n|] == '/';
    if i == |m| {
      assert m[..i] == m;
      FirstThen(n, pair, m, m + "/" + base);
      FirstThen(n, n, m, base);
    } else {
      var first, more := m[..i], m[i + 1..];
      var x := m + "/" + base;
      assert m == first + "/" + more && m + "/" + x == first + "/" + (more + "/" + x);
      PairSelects(n, more, x);
      FirstThen(n, pair, first, more + "/" + x);
      FirstThen(n, pair, first, more);
      assert first == n ==> n <= x;
      assert m == pair <==> first == n && more == n by { FirstExact(n, n, first, more); }
    }
  }

  /** The prefix watched for a name is one component longer. */
  lemma SubscribeSelects(name: string, info: ServiceInfo)
    requires Free(name, '/')
    ensures SubscribePrefix(name) <= KeyOf(info)
      <==> info.name == name || info.name == name + "/" + name || name + "/" + name + "/" + name <= info.name
  {
    var n, m, tail := name, info.name, info.name + "/" + BaseOf(info);
    KeyTail(info);
    assert SubscribePrefix(n) == NAME_SERVICE_DIR + "/" + (n + "/" + (n + "/" + n));
    Strip(NAME_SERVICE_DIR + "/", n + "/" + (n + "/" + n), m + "/" + tail);
    TripleSelects(n, m, BaseOf(info));
    assert n + "/" + (n + "/" + n) == n + "/" + n + "/" + n;
  }

  /** Among names without '/', both prefixes select the service's own keys only. */
  lemma PrefixesAgree(name: string, info: ServiceInfo)
    requires Free(name, '/') && Free(info.name, '/')
    ensures FindPrefix(name) <= KeyOf(info) <==> info.name == name
    ensures SubscribePrefix(name) <= KeyOf(info) <==> info.name == name
  {
    FindSelects(name, info);
    SubscribeSelects(name, info);
    assert (name + "/" + name)[|name|] == '/';
    assert (name + "/" + name + "/" + name)[|name|] == '/';
  }

  // ----- looking a service up -----

  datatype Found = Found(infos: seq<ServiceInfo>) | FindPanics

  function Selected(store: map<string, string>, name: string): set<string> {
    set k | k in store && FindPrefix(name) <= k
  }

  function Parses(store: map<string, string>): map<string, Parsed> {
    map k | k in store :: FromKey(k, store[k])
  }

  /** What is reported for a set of keys: one entry for each that parses, in
      the order the keys come in, which is any order. */
  ghost predicate Reports(p: map<string, Parsed>, selected: set<string>, keys: seq<string>, infos: seq<ServiceInfo>)
    requires selected <= p.Keys
  {
    && |infos| == |keys|
    && (forall i, j :: 0 <= i < j < |keys| ==> keys[i] != keys[j])
    && (forall i :: 0 <= i < |keys| ==> keys[i] in selected && p[keys[i]] == Service(infos[i]))
    && (forall k :: k in selected && p[k].Service? ==> k in keys)
  }

  ghost predicate Panicking(p: map<string, Parsed>, selected: set<string>)
    requires selected <= p.Keys
  {
    exists k :: k in selected && p[k].Panic?
  }

  lemma ReportsSame(p: map<string, Parsed>, done: set<string>, keys: seq<string>, infos: seq<ServiceInfo>, k: string)
    requires done <= p.Keys && k in p && Reports(p, done, keys, infos) && !p[k].Service?
    ensures Reports(p, done + {k}, keys, infos)
  {
  }

  lemma ReportsMore(p: map<string, Parsed>, done: set<string>, keys: seq<string>, infos: seq<ServiceInfo>, k: string)
    requires done <= p.Keys && k in p && k !in done && Reports(p, done, keys, infos) && p[k].Service?
    ensures Reports(p, done + {k}, keys + [k], infos + [p[k].info])
  {
    var more := keys + [k];
    assert forall x :: x in keys ==> x in more;
    assert k in more;
  }

  method Find(store: map<string, string>, name: string) returns (r: Found, ghost keys: seq<string>)
    ensures r.FindPanics? <==> Panicking(Parses(store), Selected(store, name))
    ensures r.Found? ==> Reports(Parses(store), Selected(store, name), keys, r.infos)
  {
    keys := [];
    var result := Selected(store, name);
    var infos := [];
    ghost var done: set<string> := {};
    ghost var p := Parses(store);
    while result != {}
      invariant done !! result && done + result == Selected(store, name)
      invariant !Panicking(p, done) && Reports(p, done, keys, infos)
    {
      var k :| k in result;
      result := result - {k};
      var parsed := FromKey(k, store[k]);
      assert parsed == p[k];
      match parsed {
        case Panic =>
          return FindPanics, keys;
        case NotAService =>
          ReportsSame(p, done, keys, infos, k);
        case Service(info) =>
          ReportsMore(p, done, keys, infos, k);
          infos := infos + [info];
          keys := keys + [k];
      }
      done := done + {k};
    }
    assert done == Selected(store, name);
    r := Found(infos);
  }

  /** The key parses to a service whose key it is. */
  ghost predicate OwnKey(key: string, value: string) {
    FromKey(key, value).Service? && KeyOf(FromKey(key, value).info) == key
  }

  /** A store written only by Register and by leases running out. */
  ghost predicate Published(store: map<string, string>) {
    forall k :: k in store ==> OwnKey(k, store[k])
  }

  ghost predicate Offers(store: map<string, string>, info: ServiceInfo) {
    KeyOf(info) in store && store[KeyOf(info)] == info.serviceId && Printable(info)
  }

  lemma BaseUnderscores(info: ServiceInfo)
    ensures Count(BaseOf(info), '_') == Count(info.name, '_') + Count(info.host, '_') + 2
  {
    var number := Itoa(info.port);
    ItoaFree(info.port, '_');
    CountFree(number, '_');
    CountJoin(info.host, '_', number, '_');
    CountJoin(info.name, '_', info.host + "_" + number, '_');
  }

  lemma BaseSlashes(info: ServiceInfo)
    ensures Count(BaseOf(info), '/') == Count(info.name, '/') + Count(info.host, '/')
  {
    var number := Itoa(info.port);
    ItoaFree(info.port, '/');
    CountFree(number, '/');
    CountJoin(info.host, '_', number, '/');
    CountJoin(info.name, '_', info.host + "_" + number, '/');
  }

  lemma KeySlashes(info: ServiceInfo)
    ensures Count(KeyOf(info), '/') == 3 + 3 * Count(info.name, '/') + Count(info.host, '/')
  {
    var inner := info.name + "/" + BaseOf(info);
    KeyTail(info);
    BaseSlashes(info);
    CountFree(NAME_SERVICE_DIR, '/');
    CountJoin(info.name, '/', BaseOf(info), '/');
    CountJoin(info.name, '/', inner, '/');
    CountJoin(NAME_SERVICE_DIR, '/', info.name + "/" + inner, '/');
  }

  /** A service's own key parses to a service with that key only if its name, host
      and port are what the key can carry. */
  lemma OwnKeyPrintable(info: ServiceInfo, value: string)
    requires OwnKey(KeyOf(info), value)
    ensures Printable(info)
  {
    var other := FromKey(KeyOf(info), value).info;
    FromKeyPrintable(KeyOf(info), value);
    KeySlashes(info);
    KeySlashes(other);
    CountFree(other.name, '/');
    CountFree(other.host, '/');
    CountFree(info.name, '/');
    CountFree(info.host, '/');
    BaseSlashes(info);
    CountFree(BaseOf(info), '/');
    AfterLastOf(NameDir(info.name) + "/" + info.name, BaseOf(info), '/');
    SplitCount(BaseOf(info), '_');
    BaseUnderscores(info);
    CountFree(info.name, '_');
    CountFree(info.host, '_');
    ItoaFree(info.port, '_');
    SplitThree(info.name, info.host, Itoa(info.port), '_');
    AtoiItoa(info.port);
  }

  lemma OwnKeyExact(info: ServiceInfo, value: string)
    ensures OwnKey(KeyOf(info), value) <==> Printable(info)
  {
    if Printable(info) {
      PrintableFromKey(info.(serviceId := value));
    } else if OwnKey(KeyOf(info), value) {
      OwnKeyPrintable(info, value);
    }
  }

  lemma PublishedWith(store: map<string, string>, key: string, value: string)
    requires Published(store)
    ensures Published(store[key := value]) <==> OwnKey(key, value)
  {
    var next := store[key := value];
    assert key in next && next[key] == value;
  }

  /** Register publishes any service.  The store stays one of printed keys if and
      only if the service can be printed; a lease that runs out never matters. */
  lemma PublishedSteps(store: map<string, string>, info: ServiceInfo, gone: string)
    requires Published(store)
    ensures Published(store[KeyOf(info) := info.serviceId]) <==> Printable(info)
    ensures Published(store - {gone})
    ensures Published(map[])
  {
    OwnKeyExact(info, info.serviceId);
    PublishedWith(store, KeyOf(info), info.serviceId);
  }

  /** The last part of a host that holds a '/' is all of the host that the parser
      sees: without an underscore there it stops. */
  ghost predicate StopsParser(info: ServiceInfo) {
    !Free(info.host, '/') && Free(AfterLast(info.host, '/'), '_')
  }

  /** What the parser sees of a host: what follows its last '/', and if it has none,
      what stands before it too. */
  ghost function Seen(left: string, host: string): string {
    if Free(host, '/') then AfterLast(left, '/') + "_" + host else AfterLast(host, '/')
  }

  lemma SeenIsLast(left: string, host: string, tail: string)
    requires Free(tail, '/')
    ensures AfterLast(left + "_" + host + tail, '/') == Seen(left, host) + tail
  {
    AfterLastMore(left + "_" + host, tail, '/');
    if Free(host, '/') {
      AfterLastMore(left + "_", host, '/');
      AfterLastMore(left, "_", '/');
    } else {
      AfterLastWithin(left + "_", host, '/');
    }
  }

  /** A key up to the host's separator. */
  function KeyStart(info: ServiceInfo): string {
    NameDir(info.name) + "/" + info.name + "/" + info.name
  }

  lemma KeyEnd(info: ServiceInfo)
    ensures KeyOf(info) == KeyStart(info) + "_" + info.host + ("_" + Itoa(info.port))
  {
  }

  lemma SeenUnderscores(left: string, host: string)
    ensures Count(Seen(left, host), '_') == 0 <==> !Free(host, '/') && Free(AfterLast(host, '/'), '_')
  {
    if Free(host, '/') {
      CountJoin(AfterLast(left, '/'), '_', host, '_');
    } else {
      CountFree(AfterLast(host, '/'), '_');
    }
  }

  lemma OwnKeyPanics(info: ServiceInfo, value: string)
    ensures FromKey(KeyOf(info), value).Panic? <==> StopsParser(info)
  {
    var seen, number := Seen(KeyStart(info), info.host), Itoa(info.port);
    ItoaFree(info.port, '/');
    ItoaFree(info.port, '_');
    KeyEnd(info);
    SeenIsLast(KeyStart(info), info.host, "_" + number);
    assert AfterLast(KeyOf(info), '/') == seen + "_" + number;
    ParserPanics(KeyOf(info), value);
    CountJoin(seen, '_', number, '_');
    CountFree(number, '_');
    SeenUnderscores(KeyStart(info), info.host);
  }

  lemma OwnPrefix(info: ServiceInfo)
    ensures FindPrefix(info.name) <= KeyOf(info)
  {
    assert KeyOf(info) == FindPrefix(info.name) + ("/" + BaseOf(info));
  }

  lemma PanickingOne(p: map<string, Parsed>, selected: set<string>, key: string)
    requires selected <= p.Keys && forall k :: k in selected && k != key ==> !p[k].Panic?
    ensures Panicking(p, selected) <==> key in selected && p[key].Panic?
  {
  }

  lemma PublishedParses(store: map<string, string>, key: string, value: string)
    requires Published(store)
    ensures var p := Parses(store[key := value]);
            (forall k :: k in p && k != key ==> !p[k].Panic?) && key in p && p[key] == FromKey(key, value)
  {
  }

  /** Once such a service is registered, the look-ups that panic are exactly those
      whose prefix selects its key, the look-up of its own name among them. */
  lemma RegisteredStopsFind(store: map<string, string>, info: ServiceInfo, name: string)
    requires Published(store)
    ensures var next := store[KeyOf(info) := info.serviceId];
            Panicking(Parses(next), Selected(next, name)) <==> StopsParser(info) && FindPrefix(name) <= KeyOf(info)
    ensures FindPrefix(info.name) <= KeyOf(info)
  {
    var key, next := KeyOf(info), store[KeyOf(info) := info.serviceId];
    OwnKeyPanics(info, info.serviceId);
    OwnPrefix(info);
    PublishedParses(store, key, info.serviceId);
    PanickingOne(Parses(next), Selected(next, name), key);
  }

  lemma PublishedNeverPanics(store: map<string, string>, name: string)
    requires Published(store)
    ensures !Panicking(Parses(store), Selected(store, name))
  {
  }

  lemma ReportedOffers(store: map<string, string>, name: string, key: string, info: ServiceInfo)
    requires Published(store) && Free(name, '/')
    requires key in Selected(store, name) && FromKey(key, store[key]) == Service(info)
    ensures Offers(store, info) && info.name == name && KeyOf(info) == key
  {
    FromKeyPrintable(key, store[key]);
    PrefixesAgree(name, info);
  }

  lemma OffersReported(store: map<string, string>, info: ServiceInfo)
    requires Offers(store, info) && Free(info.name, '/')
    ensures KeyOf(info) in Selected(store, info.name) && Parses(store)[KeyOf(info)] == Service(info)
  {
    PrintableFromKey(info);
    PrefixesAgree(info.name, info);
  }

  /** In such a store a look-up neither panics nor reports anything but the
      services offered under that name, each once. */
  lemma FindsOffered(store: map<string, string>, name: string, keys: seq<string>, infos: seq<ServiceInfo>)
    requires Published(store) && Free(name, '/') && Reports(Parses(store), Selected(store, name), keys, infos)
    ensures !Panicking(Parses(store), Selected(store, name))
    ensures forall info :: info in infos <==> Offers(store, info) && info.name == name
    ensures forall i, j :: 0 <= i < j < |infos| ==> infos[i] != infos[j]
  {
    forall i | 0 <= i < |infos|
      ensures Offers(store, infos[i]) && infos[i].name == name && KeyOf(infos[i]) == keys[i]
    {
      ReportedOffers(store, name, keys[i], infos[i]);
    }
    forall info | Offers(store, info) && info.name == name ensures info in infos {
      OffersReported(store, info);
      var i :| 0 <= i < |keys| && keys[i] == KeyOf(info);
      assert infos[i] == info;
    }
  }
}
