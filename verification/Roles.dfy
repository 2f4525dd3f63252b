/**
 Which interface is the WAN and which the LAN: hardware matchers, configured names, automatic detection.
 Resolution fails closed, and it depends on what the interfaces are, never on the order in which they are
 listed or, for hardware matchers, on what they are called.
 */
module Roles {
  import opened Wire
  import opened Text

  datatype Iface = Iface(
    name: string, kind: Option<string>, mac: Option<string>, hardwareMac: Option<string>,
    driver: Option<string>, vendorId: Option<string>, productId: Option<string>, linkUp: bool)

  datatype Matcher = Matcher(name: Option<string>, mac: Option<string>, driver: Option<string>, usb: Option<string>)
  {
    predicate IsEmpty()
    {
      name.None? && mac.None? && driver.None? && usb.None?
    }
  }

  datatype NetworkConfig = NetworkConfig(
    wanInterface: Option<string>, lanInterface: Option<string>, wanMatch: Option<Matcher>, lanMatch: Option<Matcher>)

  datatype Resolution = Found(name: string) | NoMatch | Ambiguous(candidates: seq<string>)

  // ---- Filtering, which ignores order ----

  function Filter<T>(xs: seq<T>, p: T -> bool): (r: seq<T>)
    ensures forall x <- r :: x in xs && p(x)
  {
    if |xs| == 0 then [] else if p(xs[0]) then [xs[0]] + Filter(xs[1..], p) else Filter(xs[1..], p)
  }

  lemma {:induction false} FilterCount<T>(xs: seq<T>, p: T -> bool, x: T)
    ensures multiset(Filter(xs, p))[x] == if p(x) then multiset(xs)[x] else 0
  {
    if |xs| > 0 {
      FilterCount(xs[1..], p, x);
      assert xs == [xs[0]] + xs[1..];
    }
  }

  lemma FilterPermuted<T(!new)>(xs: seq<T>, ys: seq<T>, p: T -> bool)
    requires multiset(xs) == multiset(ys)
    ensures multiset(Filter(xs, p)) == multiset(Filter(ys, p)) && |Filter(xs, p)| == |Filter(ys, p)|
  {
    var fx, fy := Filter(xs, p), Filter(ys, p);
    forall x
      ensures multiset(fx)[x] == multiset(fy)[x]
    {
      FilterCount(xs, p, x);
      FilterCount(ys, p, x);
    }
    assert multiset(fx) == multiset(fy);
    assert |fx| == |multiset(fx)| && |fy| == |multiset(fy)|;
  }

  /** The only element of a list, the same for every order of it. */
  lemma SingletonPermuted<T>(xs: seq<T>, ys: seq<T>)
    requires multiset(xs) == multiset(ys) && |xs| == 1
    ensures xs == ys
  {
    assert |ys| == |multiset(ys)| == |multiset(xs)| == 1;
    assert xs == [xs[0]] && ys == [ys[0]];
    assert xs[0] in multiset(xs);
    assert xs[0] in ys;
  }

  // ---- One matcher ----

  function HexId(s: string): string
  {
    if |s| >= 2 && s[..2] == "0x" then HexId(s[2..]) else LowerText(s)
  }

  /** Before and after the first colon; everything and nothing if there is none. */
  function SplitColon(s: string): (string, string)
  {
    if |s| == 0 then ("", "")
    else if s[0] == ':' then ("", s[1..])
    else
      var (v, p) := SplitColon(s[1..]);
      ([s[0]] + v, p)
  }

  function IdOf(id: Option<string>): string
  {
    if id.None? then "" else HexId(id.value)
  }

  predicate MeetsMac(m: Matcher, i: Iface)
  {
    m.mac.Some? ==>
      var want := LowerText(m.mac.value);
      i.mac == Some(want) || i.hardwareMac == Some(want)
  }

  predicate MeetsUsb(m: Matcher, i: Iface)
  {
    m.usb.Some? ==>
      var (vid, pid) := SplitColon(LowerText(m.usb.value));
      HexId(vid) == IdOf(i.vendorId) && (pid == "" || HexId(pid) == IdOf(i.productId))
  }

  /** All specified criteria hold. */
  predicate Meets(m: Matcher, i: Iface)
  {
    && (m.name.Some? ==> i.name == m.name.value)
    && MeetsMac(m, i)
    && (m.driver.Some? ==> i.driver == m.driver)
    && MeetsUsb(m, i)
  }

  function Names(ifs: seq<Iface>): (r: seq<string>)
    ensures |r| == |ifs| && forall k | 0 <= k < |r| :: r[k] == ifs[k].name
  {
    seq(|ifs|, k requires 0 <= k < |ifs| => ifs[k].name)
  }

  function Resolve(m: Matcher, ifs: seq<Iface>): Resolution
  {
    if m.IsEmpty() then NoMatch
    else
      var matched := Filter(ifs, (i: Iface) => Meets(m, i));
      if |matched| == 0 then NoMatch
      else if |matched| == 1 then Found(matched[0].name)
      else Ambiguous(Names(matched))
  }

  /** Position `k` is the only one that meets the criteria. */
  ghost predicate OnlyMatch(m: Matcher, ifs: seq<Iface>, k: int)
  {
    0 <= k < |ifs| && forall j | 0 <= j < |ifs| :: Meets(m, ifs[j]) <==> j == k
  }

  lemma {:induction false} FilterNone<T>(xs: seq<T>, p: T -> bool)
    ensures Filter(xs, p) == [] <==> forall j | 0 <= j < |xs| :: !p(xs[j])
  {
    if |xs| > 0 {
      FilterNone(xs[1..], p);
      assert forall j | 0 < j < |xs| :: xs[j] == xs[1..][j - 1];
    }
  }

  /** A filter that keeps one element keeps the only one that qualifies. */
  lemma {:induction false} FilterOne<T>(xs: seq<T>, p: T -> bool) returns (k: int)
    requires |Filter(xs, p)| == 1
    ensures 0 <= k < |xs| && Filter(xs, p) == [xs[k]] && forall j | 0 <= j < |xs| :: p(xs[j]) <==> j == k
  {
    var rest := xs[1..];
    assert forall j | 0 < j < |xs| :: xs[j] == rest[j - 1];
    if p(xs[0]) {
      FilterNone(rest, p);
      k := 0;
    } else {
      k := FilterOne(rest, p);
      k := k + 1;
    }
  }

  lemma {:induction false} OneFiltered<T>(xs: seq<T>, p: T -> bool, k: int)
    requires 0 <= k < |xs| && forall j | 0 <= j < |xs| :: p(xs[j]) <==> j == k
    ensures Filter(xs, p) == [xs[k]]
  {
    var rest := xs[1..];
    assert forall j | 0 <= j < |rest| :: rest[j] == xs[j + 1];
    if k == 0 {
      FilterNone(rest, p);
    } else {
      OneFiltered(rest, p, k - 1);
    }
  }

  /** A matcher with criteria selects an interface exactly when one and only one live interface meets them all. */
  lemma ResolveExact(m: Matcher, ifs: seq<Iface>, name: string)
    ensures Resolve(m, ifs) == Found(name) <==>
      !m.IsEmpty() && exists k :: OnlyMatch(m, ifs, k) && ifs[k].name == name
  {
    hide Meets, Filter;
    var p := (i: Iface) => Meets(m, i);
    if |Filter(ifs, p)| == 1 {
      var k := FilterOne(ifs, p);
      assert OnlyMatch(m, ifs, k);
    }
    forall k | OnlyMatch(m, ifs, k)
      ensures Filter(ifs, p) == [ifs[k]]
    {
      OneFiltered(ifs, p, k);
    }
  }

  /** The same answer, candidates of an ambiguity listed in another order. */
  ghost predicate SameResolution(a: Resolution, b: Resolution)
  {
    a == b || (a.Ambiguous? && b.Ambiguous? && multiset(a.candidates) == multiset(b.candidates))
  }

  /** Taking the same element out of two orders of a list leaves two orders of one list. */
  lemma Removed(xs: seq<Iface>, ys: seq<Iface>) returns (k: nat)
    requires multiset(xs) == multiset(ys) && |xs| > 0
    ensures k < |ys| && ys[k] == xs[0] && multiset(xs[1..]) == multiset(ys[..k] + ys[k + 1..])
  {
    assert xs[0] in multiset(xs);
    assert xs[0] in ys;
    k :| k < |ys| && ys[k] == xs[0];
    var one := multiset{xs[0]};
    assert xs == [xs[0]] + xs[1..];
    assert ys == ys[..k] + ([ys[k]] + ys[k + 1..]);
    assert multiset(xs) - one == multiset(xs[1..]);
    assert multiset(ys) - one == multiset(ys[..k] + ys[k + 1..]);
  }

  lemma {:induction false} NamesPermuted(xs: seq<Iface>, ys: seq<Iface>)
    requires multiset(xs) == multiset(ys)
    ensures multiset(Names(xs)) == multiset(Names(ys))
  {
    hide Names;
    if |xs| == 0 {
      assert |multiset(ys)| == 0;
    } else {
      var k := Removed(xs, ys);
      var a, x, c := ys[..k], [xs[0]], ys[k + 1..];
      NamesPermuted(xs[1..], a + c);
      NamesConcat(x, xs[1..]);
      NamesConcat(a, c);
      NamesConcat(x, c);
      NamesConcat(a, x + c);
      assert xs == x + xs[1..] && ys == a + (x + c);
      SwapFront(Names(a), Names(x), Names(c));
    }
  }

  lemma NamesConcat(a: seq<Iface>, b: seq<Iface>)
    ensures Names(a + b) == Names(a) + Names(b)
  {
  }

  lemma SwapFront<T>(a: seq<T>, x: seq<T>, c: seq<T>)
    ensures multiset(a + (x + c)) == multiset(x) + multiset(a + c)
  {
  }

  lemma ResolvePermuted(m: Matcher, xs: seq<Iface>, ys: seq<Iface>)
    requires multiset(xs) == multiset(ys)
    ensures SameResolution(Resolve(m, xs), Resolve(m, ys))
  {
    hide Meets, Filter;
    var p := (i: Iface) => Meets(m, i);
    FilterPermuted(xs, ys, p);
    NamesPermuted(Filter(xs, p), Filter(ys, p));
    if |Filter(xs, p)| == 1 {
      SingletonPermuted(Filter(xs, p), Filter(ys, p));
    }
  }

  // ---- Automatic detection ----

  predicate Port(i: Iface)
  {
    (i.kind.None? || i.kind.value in ["ether", "eth", ""]) && i.name != "lo"
  }

  function Named(ifs: seq<Iface>, name: string): seq<Iface>
  {
    Filter(ifs, (i: Iface) => i.name == name)
  }

  function Others(ifs: seq<Iface>, name: string): seq<Iface>
  {
    Filter(ifs, (i: Iface) => i.name != name)
  }

  function Up(ifs: seq<Iface>): seq<Iface>
  {
    Filter(ifs, (i: Iface) => i.linkUp)
  }

  function Ports(ifs: seq<Iface>): seq<Iface>
  {
    Filter(ifs, (i: Iface) => Port(i))
  }

  /** With a WAN that is up: the one other port that is up, or else the only other port. */
  function PartnerOf(eth: seq<Iface>, wan: string): Option<(string, string)>
  {
    var others := Others(eth, wan);
    if |Up(others)| == 1 then Some((wan, Up(others)[0].name))
    else if |others| == 1 then Some((wan, others[0].name))
    else None
  }

  function ByCarrier(eth: seq<Iface>): Option<(string, string)>
  {
    if |Up(eth)| != 1 then None
    else
      var wan := Up(eth)[0].name;
      if |Others(eth, wan)| == 1 then Some((wan, Others(eth, wan)[0].name)) else None
  }

  /** `route` owns the default route, if anything does. */
  function AutoAssign(ifs: seq<Iface>, route: Option<string>): Option<(string, string)>
  {
    var eth := Ports(ifs);
    if |eth| < 2 then None
    else if route.Some? && |Named(eth, route.value)| > 0 && Named(eth, route.value)[0].linkUp
    then PartnerOf(eth, route.value)
    else ByCarrier(eth)
  }

  ghost predicate DistinctNames(ifs: seq<Iface>)
  {
    forall i, j | 0 <= i < j < |ifs| :: ifs[i].name != ifs[j].name
  }

  lemma {:induction false} AtMostOneNamed(ifs: seq<Iface>, name: string)
    requires DistinctNames(ifs)
    ensures |Named(ifs, name)| <= 1
  {
    if |ifs| > 0 {
      AtMostOneNamed(ifs[1..], name);
      if ifs[0].name == name {
        assert forall j | 0 <= j < |ifs[1..]| :: ifs[1..][j] == ifs[j + 1];
        FilterNone(ifs[1..], (i: Iface) => i.name == name);
      }
    }
  }

  lemma {:induction false} FilterDistinct(ifs: seq<Iface>, p: Iface -> bool)
    requires DistinctNames(ifs)
    ensures DistinctNames(Filter(ifs, p))
  {
    if |ifs| > 0 {
      FilterDistinct(ifs[1..], p);
      var rest := Filter(ifs[1..], p);
      if p(ifs[0]) {
        forall j | 0 <= j < |rest|
          ensures rest[j].name != ifs[0].name
        {
          assert rest[j] in rest;
          var k :| 0 <= k < |ifs[1..]| && ifs[1..][k] == rest[j];
          assert ifs[k + 1].name == rest[j].name;
        }
      }
    }
  }

  lemma UpPermuted(xs: seq<Iface>, ys: seq<Iface>)
    requires multiset(xs) == multiset(ys)
    ensures multiset(Up(xs)) == multiset(Up(ys)) && |Up(xs)| == |Up(ys)| && (|Up(xs)| == 1 ==> Up(xs) == Up(ys))
  {
    hide Filter;
    FilterPermuted(xs, ys, (i: Iface) => i.linkUp);
    if |Up(xs)| == 1 {
      SingletonPermuted(Up(xs), Up(ys));
    }
  }

  lemma OthersPermuted(xs: seq<Iface>, ys: seq<Iface>, name: string)
    requires multiset(xs) == multiset(ys)
    ensures multiset(Others(xs, name)) == multiset(Others(ys, name)) && |Others(xs, name)| == |Others(ys, name)|
    ensures |Others(xs, name)| == 1 ==> Others(xs, name) == Others(ys, name)
  {
    hide Filter;
    FilterPermuted(xs, ys, (i: Iface) => i.name != name);
    if |Others(xs, name)| == 1 {
      SingletonPermuted(Others(xs, name), Others(ys, name));
    }
  }

  /** Detection does not depend on the order of the list. */
  lemma AutoAssignPermuted(xs: seq<Iface>, ys: seq<Iface>, route: Option<string>)
    requires multiset(xs) == multiset(ys) && DistinctNames(xs)
    ensures AutoAssign(xs, route) == AutoAssign(ys, route)
  {
    hide Filter, Up, Others;
    var ex, ey := Ports(xs), Ports(ys);
    FilterPermuted(xs, ys, (i: Iface) => Port(i));
    UpPermuted(ex, ey);
    if |Up(ex)| == 1 {
      OthersPermuted(ex, ey, Up(ex)[0].name);
    }
    if route.Some? {
      var wan := route.value;
      FilterPermuted(ex, ey, (i: Iface) => i.name == wan);
      FilterDistinct(xs, (i: Iface) => Port(i));
      AtMostOneNamed(ex, wan);
      if |Named(ex, wan)| == 1 {
        SingletonPermuted(Named(ex, wan), Named(ey, wan));
      }
      OthersPermuted(ex, ey, wan);
      UpPermuted(Others(ex, wan), Others(ey, wan));
    }
  }

  /** A detected pair: two different ports, a WAN that is up, and the default route's owner if that is an up port. */
  lemma AutoAssignIsSound(ifs: seq<Iface>, route: Option<string>)
    requires AutoAssign(ifs, route).Some?
    ensures
      var (wan, lan) := AutoAssign(ifs, route).value;
      && wan != lan
      && (exists i <- ifs :: i.name == wan && Port(i) && i.linkUp)
      && (exists i <- ifs :: i.name == lan && Port(i))
      && (route.Some? && |Named(Ports(ifs), route.value)| > 0 && Named(Ports(ifs), route.value)[0].linkUp ==>
            wan == route.value)
  {
    hide Port;
    var eth := Ports(ifs);
    var (wan, lan) := AutoAssign(ifs, route).value;
    var others := Others(eth, wan);
    if route.Some? && |Named(eth, route.value)| > 0 && Named(eth, route.value)[0].linkUp {
      assert Named(eth, wan)[0] in Named(eth, wan);
      if |Up(others)| == 1 {
        assert Up(others)[0] in Up(others);
      } else {
        assert others[0] in others;
      }
    } else {
      assert Up(eth)[0] in Up(eth) && others[0] in others;
    }
  }

  // ---- Both roles ----

  datatype Roles = Roles(wan: string, lan: string) | WanUnresolved | LanUnresolved | Collide | Undetected | Incomplete

  /** A role's name from its matcher, or from its configured name; `None` if its matcher fails. */
  function RoleName(m: Option<Matcher>, name: Option<string>, ifs: seq<Iface>): Option<Option<string>>
  {
    match m
    case None => Some(name)
    case Some(matcher) => match Resolve(matcher, ifs) case Found(n) => Some(Some(n)) case _ => None
  }

  function RolesOf(cfg: NetworkConfig, ifs: seq<Iface>, route: Option<string>): Roles
  {
    match (RoleName(cfg.wanMatch, cfg.wanInterface, ifs), RoleName(cfg.lanMatch, cfg.lanInterface, ifs))
    case (None, _) => WanUnresolved
    case (_, None) => LanUnresolved
    case (Some(Some(wan)), Some(Some(lan))) => if wan == lan then Collide else Roles(wan, lan)
    case (Some(None), Some(None)) =>
      (match AutoAssign(ifs, route) case None => Undetected case Some((wan, lan)) => Roles(wan, lan))
    case _ => Incomplete
  }

  method ResolveRoles(cfg: NetworkConfig, ifs: seq<Iface>, route: Option<string>) returns (r: Roles)
    ensures r == RolesOf(cfg, ifs, route)
  {
    hide Resolve, AutoAssign;
    var wan: Option<string> := None;
    var lan: Option<string> := None;
    if cfg.wanMatch.Some? {
      var found := Resolve(cfg.wanMatch.value, ifs);
      if !found.Found? {
        return WanUnresolved;
      }
      wan := Some(found.name);
    }
    if cfg.lanMatch.Some? {
      var found := Resolve(cfg.lanMatch.value, ifs);
      if !found.Found? {
        return LanUnresolved;
      }
      lan := Some(found.name);
    }
    if wan.None? {
      wan := cfg.wanInterface;
    }
    if lan.None? {
      lan := cfg.lanInterface;
    }
    if wan.Some? && lan.Some? {
      return if wan == lan then Collide else Roles(wan.value, lan.value);
    }
    if wan.None? && lan.None? {
      var detected := AutoAssign(ifs, route);
      return match detected case None => Undetected case Some(pair) => Roles(pair.0, pair.1);
    }
    r := Incomplete;
  }

  /** Whatever the configuration, resolved roles are two different interfaces. */
  lemma RolesDiffer(cfg: NetworkConfig, ifs: seq<Iface>, route: Option<string>)
    ensures
      var r := RolesOf(cfg, ifs, route);
      r.Roles? ==> r.wan != r.lan
  {
    hide Resolve, AutoAssign;
    if AutoAssign(ifs, route).Some? {
      AutoAssignIsSound(ifs, route);
    }
  }

  /** Listing the interfaces in another order changes nothing. */
  lemma RolesPermuted(cfg: NetworkConfig, xs: seq<Iface>, ys: seq<Iface>, route: Option<string>)
    requires multiset(xs) == multiset(ys) && DistinctNames(xs)
    ensures RolesOf(cfg, xs, route) == RolesOf(cfg, ys, route)
  {
    hide Resolve, AutoAssign;
    AutoAssignPermuted(xs, ys, route);
    if cfg.wanMatch.Some? {
      ResolvePermuted(cfg.wanMatch.value, xs, ys);
    }
    if cfg.lanMatch.Some? {
      ResolvePermuted(cfg.lanMatch.value, xs, ys);
    }
  }

  function Renamed(ifs: seq<Iface>, f: string -> string): (r: seq<Iface>)
    ensures |r| == |ifs| && forall k | 0 <= k < |r| :: r[k] == ifs[k].(name := f(ifs[k].name))
  {
    seq(|ifs|, k requires 0 <= k < |ifs| => ifs[k].(name := f(ifs[k].name)))
  }

  ghost predicate Injective(f: string -> string)
  {
    forall a, b :: f(a) == f(b) ==> a == b
  }

  lemma RenamedMatch(m: Matcher, ifs: seq<Iface>, f: string -> string, k: int)
    requires m.name.None?
    ensures OnlyMatch(m, Renamed(ifs, f), k) <==> OnlyMatch(m, ifs, k)
  {
    hide HexId, SplitColon, LowerText;
    var rs := Renamed(ifs, f);
    forall j | 0 <= j < |ifs|
      ensures Meets(m, rs[j]) == Meets(m, ifs[j])
    {
    }
  }

  lemma ResolveRenamed(m: Matcher, ifs: seq<Iface>, f: string -> string)
    requires m.name.None?
    ensures
      match Resolve(m, ifs)
      case Found(n) => Resolve(m, Renamed(ifs, f)) == Found(f(n))
      case _ => !Resolve(m, Renamed(ifs, f)).Found?
  {
    hide Resolve, Meets;
    forall k: int
      ensures OnlyMatch(m, Renamed(ifs, f), k) <==> OnlyMatch(m, ifs, k)
    {
      RenamedMatch(m, ifs, f, k);
    }
    match Resolve(m, ifs)
    case Found(n) =>
      ResolveExact(m, ifs, n);
      var k :| OnlyMatch(m, ifs, k) && ifs[k].name == n;
      ResolveExact(m, Renamed(ifs, f), f(n));
      assert OnlyMatch(m, Renamed(ifs, f), k) && Renamed(ifs, f)[k].name == f(n);
    case _ =>
      if Resolve(m, Renamed(ifs, f)).Found? {
        var n := Resolve(m, Renamed(ifs, f)).name;
        ResolveExact(m, Renamed(ifs, f), n);
        var k :| OnlyMatch(m, Renamed(ifs, f), k) && Renamed(ifs, f)[k].name == n;
        ResolveExact(m, ifs, ifs[k].name);
      }
  }

  /** With hardware matchers for both roles, renaming interfaces renames the answer and nothing else. */
  lemma RolesRenamed(cfg: NetworkConfig, ifs: seq<Iface>, route: Option<string>, f: string -> string)
    requires cfg.wanMatch.Some? && cfg.lanMatch.Some? && cfg.wanMatch.value.name.None? && cfg.lanMatch.value.name.None?
    requires Injective(f)
    ensures RolesOf(cfg, Renamed(ifs, f), route) ==
            match RolesOf(cfg, ifs, route)
            case Roles(wan, lan) => Roles(f(wan), f(lan))
            case e => e
  {
    hide Resolve, AutoAssign;
    ResolveRenamed(cfg.wanMatch.value, ifs, f);
    ResolveRenamed(cfg.lanMatch.value, ifs, f);
  }
}
