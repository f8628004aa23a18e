/** The configuration graph of the virtual display driver, its mutators and its validator. */
module ConfigGraph {
  datatype PlaneType = Overlay | Primary | Cursor

  datatype Status = Ok | Invalid | Exists | NoMemory

  // ---- index arrays of links ----

  type Links<T> = map<nat, T>

  /** Every link points into the live objects, and no object is linked twice. */
  ghost predicate Sound<T>(m: Links<T>, live: seq<T>) {
    && (forall k :: k in m ==> m[k] in live)
    && (forall j, k :: j in m && k in m && m[j] == m[k] ==> j == k)
  }

  ghost predicate LinksTo<T>(m: Links<T>, v: T) { exists k :: k in m && m[k] == v }

  function Minus<T(==)>(m: Links<T>, v: T): Links<T> { map k | k in m && m[k] != v :: m[k] }

  method Find<T(==)>(m: Links<T>, v: T) returns (found: bool)
    ensures found <==> LinksTo(m, v)
  {
    var todo := m.Keys;
    while todo != {}
      invariant todo <= m.Keys
      invariant forall k :: k in m.Keys && k !in todo ==> m[k] != v
      decreases todo
    {
      var k :| k in todo;
      if m[k] == v {
        return true;
      }
      todo := todo - {k};
    }
    return false;
  }

  /** i is the lowest index not in use. */
  ghost predicate IsLowestFree<T>(m: Links<T>, i: nat) { i !in m && forall k: nat :: k < i ==> k in m }

  method LowestFree<T>(m: Links<T>) returns (i: nat)
    ensures IsLowestFree(m, i)
  {
    i := 0;
    ghost var rest := m.Keys;
    while i in m
      invariant forall k: nat :: k < i ==> k in m
      invariant forall k: nat :: k in m && k >= i ==> k in rest
      decreases rest
    {
      rest := rest - {i};
      i := i + 1;
    }
  }

  /** Links v at the lowest free index, unless it is linked already. */
  method Attach<T(==)>(m: Links<T>, v: T, memory: bool) returns (status: Status, n: Links<T>)
    ensures status == (if LinksTo(m, v) then Exists else if !memory then NoMemory else Ok)
    ensures status != Ok ==> n == m
    ensures status == Ok ==> exists i: nat :: IsLowestFree(m, i) && n == m[i := v]
  {
    var found := Find(m, v);
    if found {
      return Exists, m;
    }
    if !memory {
      return NoMemory, m;
    }
    var i := LowestFree(m);
    return Ok, m[i := v];
  }

  /** Erases every link to v. */
  method Detach<T(==)>(m: Links<T>, v: T) returns (n: Links<T>)
    ensures n == Minus(m, v)
  {
    n := m;
    var todo := m.Keys;
    while todo != {}
      invariant todo <= m.Keys
      invariant n == map k | k in m && (m[k] != v || k in todo) :: m[k]
      decreases todo
    {
      var k :| k in todo;
      if m[k] == v {
        n := n - {k};
      }
      todo := todo - {k};
    }
  }

  lemma AttachKeepsSound<T>(m: Links<T>, i: nat, v: T, live: seq<T>)
    requires Sound(m, live) && i !in m && v in live && !LinksTo(m, v)
    ensures Sound(m[i := v], live)
  {
  }

  /** Detaching and then removing an object leaves no link to it. */
  lemma DetachKeepsSound<T>(m: Links<T>, v: T, live: seq<T>)
    requires Sound(m, live)
    ensures Sound(Minus(m, v), Without(live, v)) && Sound(Minus(m, v), live) && !LinksTo(Minus(m, v), v)
  {
    forall k | k in Minus(m, v) ensures Minus(m, v)[k] in Without(live, v) {
      StillIn(live, v, m[k]);
    }
  }

  // ---- lists ----

  ghost predicate Distinct<T>(s: seq<T>) { forall i, j :: 0 <= i < j < |s| ==> s[i] != s[j] }

  /** list_del. */
  function Without<T(==)>(s: seq<T>, v: T): seq<T> {
    if s == [] then [] else (if s[0] == v then [] else [s[0]]) + Without(s[1..], v)
  }

  lemma {:induction false} StillIn<T>(s: seq<T>, v: T, x: T)
    ensures x in Without(s, v) <==> x in s && x != v
  {
    if s == [] {
    } else {
      StillIn(s[1..], v, x);
    }
  }

  lemma {:induction false} WithoutIsDistinct<T>(s: seq<T>, v: T)
    requires Distinct(s)
    ensures Distinct(Without(s, v))
    ensures |Without(s, v)| == |s| - if v in s then 1 else 0
  {
    if s == [] {
    } else {
      WithoutIsDistinct(s[1..], v);
      if s[0] != v { StillIn(s[1..], v, s[0]); }
    }
  }

  /** Deleting from a list keeps the others in their order. */
  lemma {:induction false} WithoutKeepsOrder<T>(s: seq<T>, i: nat)
    requires Distinct(s) && i < |s|
    ensures Without(s, s[i]) == s[..i] + s[i + 1..]
  {
    if i == 0 {
      NothingToDelete(s[1..], s[0]);
    } else {
      assert s[1..][i - 1] == s[i];
      WithoutKeepsOrder(s[1..], i - 1);
      assert s[..i] == [s[0]] + s[1..][..i - 1];
    }
  }

  lemma {:induction false} NothingToDelete<T>(s: seq<T>, v: T)
    requires forall i :: 0 <= i < |s| ==> s[i] != v
    ensures Without(s, v) == s
  {
    if s == [] {
    } else {
      NothingToDelete(s[1..], v);
    }
  }

  // ---- the objects ----

  class CrtcCfg {
    const config: Config
    var writeback: bool

    constructor (config: Config)
      ensures this.config == config && !writeback
    {
      this.config, writeback := config, false;
    }
  }

  class PlaneCfg {
    const config: Config
    var kind: PlaneType
    var possibleCrtcs: Links<CrtcCfg>

    constructor (config: Config)
      ensures this.config == config && kind == Overlay && possibleCrtcs == map[]
    {
      this.config, kind, possibleCrtcs := config, Overlay, map[];
    }

    /** The plane can be used with the CRTC and has the given type. */
    ghost predicate Serves(c: CrtcCfg, t: PlaneType)
      reads this
    {
      LinksTo(possibleCrtcs, c) && kind == t
    }
  }

  class EncoderCfg {
    const config: Config
    var possibleCrtcs: Links<CrtcCfg>

    constructor (config: Config)
      ensures this.config == config && possibleCrtcs == map[]
    {
      this.config, possibleCrtcs := config, map[];
    }
  }

  class ConnectorCfg {
    const config: Config
    var possibleEncoders: Links<EncoderCfg>

    constructor (config: Config)
      ensures this.config == config && possibleEncoders == map[]
    {
      this.config, possibleEncoders := config, map[];
    }
  }

  class Config {
    var planes: seq<PlaneCfg>
    var crtcs: seq<CrtcCfg>
    var encoders: seq<EncoderCfg>
    var connectors: seq<ConnectorCfg>

    /** All links stay inside the configuration and are made once; no object is listed twice. */
    ghost predicate Valid()
      reads this, planes, encoders, connectors
    {
      && Distinct(planes) && Distinct(crtcs) && Distinct(encoders) && Distinct(connectors)
      && (forall p :: p in planes ==> p.config == this && Sound(p.possibleCrtcs, crtcs))
      && (forall c :: c in crtcs ==> c.config == this)
      && (forall e :: e in encoders ==> e.config == this && Sound(e.possibleCrtcs, crtcs))
      && (forall n :: n in connectors ==> n.config == this && Sound(n.possibleEncoders, encoders))
    }

    constructor ()
      ensures Valid() && planes == [] && crtcs == [] && encoders == [] && connectors == []
    {
      planes, crtcs, encoders, connectors := [], [], [], [];
    }

    // ---- creation ----

    method CreatePlane(memory: bool) returns (p: PlaneCfg?)
      requires Valid()
      modifies this`planes
      ensures Valid() && (p == null <==> !memory)
      ensures p == null ==> planes == old(planes)
      ensures p != null ==> fresh(p) && p.kind == Overlay && p.possibleCrtcs == map[] && p.config == this
      ensures p != null ==> planes == old(planes) + [p]
    {
      if !memory {
        return null;
      }
      p := new PlaneCfg(this);
      planes := planes + [p];
    }

    method CreateCrtc(memory: bool) returns (c: CrtcCfg?)
      requires Valid()
      modifies this`crtcs
      ensures Valid() && (c == null <==> !memory)
      ensures c == null ==> crtcs == old(crtcs)
      ensures c != null ==> fresh(c) && !c.writeback && c.config == this && crtcs == old(crtcs) + [c]
    {
      if !memory {
        return null;
      }
      c := new CrtcCfg(this);
      crtcs := crtcs + [c];
    }

    method CreateEncoder(memory: bool) returns (e: EncoderCfg?)
      requires Valid()
      modifies this`encoders
      ensures Valid() && (e == null <==> !memory)
      ensures e == null ==> encoders == old(encoders)
      ensures e != null ==> fresh(e) && e.possibleCrtcs == map[] && e.config == this && encoders == old(encoders) + [e]
    {
      if !memory {
        return null;
      }
      e := new EncoderCfg(this);
      encoders := encoders + [e];
    }

    method CreateConnector(memory: bool) returns (n: ConnectorCfg?)
      requires Valid()
      modifies this`connectors
      ensures Valid() && (n == null <==> !memory)
      ensures n == null ==> connectors == old(connectors)
      ensures n != null ==> fresh(n) && n.possibleEncoders == map[] && n.config == this
      ensures n != null ==> connectors == old(connectors) + [n]
    {
      if !memory {
        return null;
      }
      n := new ConnectorCfg(this);
      connectors := connectors + [n];
    }

    // ---- destruction ----

    method DestroyPlane(p: PlaneCfg)
      requires Valid() && p in planes
      modifies this`planes
      ensures Valid() && planes == Without(old(planes), p)
    {
      WithoutIsDistinct(planes, p);
      forall q ensures q in Without(planes, p) <==> q in planes && q != p { StillIn(planes, p, q); }
      planes := Without(planes, p);
    }

    method DetachFromPlanes(c: CrtcCfg)
      requires Distinct(planes)
      modifies planes
      ensures forall p :: p in planes ==> p.possibleCrtcs == Minus(old(p.possibleCrtcs), c) && p.kind == old(p.kind)
    {
      hide Minus;
      for i := 0 to |planes|
        invariant forall j :: 0 <= j < |planes| ==> planes[j].kind == old(planes[j].kind)
        invariant forall j :: 0 <= j < i ==> planes[j].possibleCrtcs == Minus(old(planes[j].possibleCrtcs), c)
        invariant forall j :: i <= j < |planes| ==> planes[j].possibleCrtcs == old(planes[j].possibleCrtcs)
      {
        var m := Detach(planes[i].possibleCrtcs, c);
        planes[i].possibleCrtcs := m;
      }
    }

    method DetachFromEncoders(c: CrtcCfg)
      requires Distinct(encoders)
      modifies encoders
      ensures forall e :: e in encoders ==> e.possibleCrtcs == Minus(old(e.possibleCrtcs), c)
    {
      hide Minus;
      for i := 0 to |encoders|
        invariant forall j :: 0 <= j < i ==> encoders[j].possibleCrtcs == Minus(old(encoders[j].possibleCrtcs), c)
        invariant forall j :: i <= j < |encoders| ==> encoders[j].possibleCrtcs == old(encoders[j].possibleCrtcs)
      {
        var m := Detach(encoders[i].possibleCrtcs, c);
        encoders[i].possibleCrtcs := m;
      }
    }

    /** Detaches the CRTC everywhere before it goes. */
    method DestroyCrtc(c: CrtcCfg)
      requires Valid() && c in crtcs
      modifies this`crtcs, planes, encoders
      ensures Valid() && crtcs == Without(old(crtcs), c)
      ensures forall p :: p in planes ==> p.possibleCrtcs == Minus(old(p.possibleCrtcs), c) && p.kind == old(p.kind)
      ensures forall e :: e in encoders ==> e.possibleCrtcs == Minus(old(e.possibleCrtcs), c)
    {
      hide Sound, Minus;
      DetachFromPlanes(c);
      DetachFromEncoders(c);
      WithoutIsDistinct(crtcs, c);
      forall d ensures d in Without(crtcs, c) <==> d in crtcs && d != c { StillIn(crtcs, c, d); }
      forall p | p in planes ensures Sound(p.possibleCrtcs, Without(crtcs, c)) {
        DetachKeepsSound(old(p.possibleCrtcs), c, crtcs);
      }
      forall e | e in encoders ensures Sound(e.possibleCrtcs, Without(crtcs, c)) {
        DetachKeepsSound(old(e.possibleCrtcs), c, crtcs);
      }
      crtcs := Without(crtcs, c);
    }

    method DestroyEncoder(e: EncoderCfg)
      requires Valid() && e in encoders
      modifies this`encoders, connectors
      ensures Valid() && encoders == Without(old(encoders), e)
      ensures forall n :: n in connectors ==> n.possibleEncoders == Minus(old(n.possibleEncoders), e)
    {
      hide Sound, Minus;
      for i := 0 to |connectors|
        invariant encoders == old(encoders)
        invariant forall j :: 0 <= j < i ==> connectors[j].possibleEncoders == Minus(old(connectors[j].possibleEncoders), e)
        invariant forall j :: i <= j < |connectors| ==> connectors[j].possibleEncoders == old(connectors[j].possibleEncoders)
      {
        var m := Detach(connectors[i].possibleEncoders, e);
        connectors[i].possibleEncoders := m;
      }
      WithoutIsDistinct(encoders, e);
      forall d ensures d in Without(encoders, e) <==> d in encoders && d != e { StillIn(encoders, e, d); }
      forall n | n in connectors ensures Sound(n.possibleEncoders, Without(encoders, e)) {
        DetachKeepsSound(old(n.possibleEncoders), e, encoders);
      }
      encoders := Without(encoders, e);
    }

    method DestroyConnector(n: ConnectorCfg)
      requires Valid() && n in connectors
      modifies this`connectors
      ensures Valid() && connectors == Without(old(connectors), n)
    {
      WithoutIsDistinct(connectors, n);
      forall q ensures q in Without(connectors, n) <==> q in connectors && q != n { StillIn(connectors, n, q); }
      connectors := Without(connectors, n);
    }

    /** Planes, CRTCs, encoders, connectors: every step of the way leaves a sound configuration. */
    method Destroy()
      requires Valid()
      modifies this, planes, encoders, connectors
      ensures Valid() && planes == [] && crtcs == [] && encoders == [] && connectors == []
    {
      while planes != []
        invariant Valid() && encoders == old(encoders) && connectors == old(connectors)
        decreases |planes|
      {
        WithoutIsDistinct(planes, planes[0]);
        DestroyPlane(planes[0]);
      }
      while crtcs != []
        invariant Valid() && planes == [] && encoders == old(encoders) && connectors == old(connectors)
        decreases |crtcs|
      {
        WithoutIsDistinct(crtcs, crtcs[0]);
        DestroyCrtc(crtcs[0]);
      }
      while encoders != []
        invariant Valid() && planes == [] && crtcs == [] && connectors == old(connectors)
        decreases |encoders|
      {
        WithoutIsDistinct(encoders, encoders[0]);
        DestroyEncoder(encoders[0]);
      }
      while connectors != []
        invariant Valid() && planes == [] && crtcs == [] && encoders == []
        decreases |connectors|
      {
        WithoutIsDistinct(connectors, connectors[0]);
        DestroyConnector(connectors[0]);
      }
    }

    // ---- the validator ----

    /** What a usable configuration must look like. */
    ghost predicate Usable()
      reads this, planes, encoders, connectors
    {
      && 1 <= |planes| <= 31 && 1 <= |crtcs| <= 31 && 1 <= |encoders| <= 31 && 1 <= |connectors| <= 31
      && (forall p :: p in planes ==> p.possibleCrtcs != map[])
      && (forall c :: c in crtcs ==> Driven(c))
      && (forall e :: e in encoders ==> e.possibleCrtcs != map[])
      && (forall c :: c in crtcs ==> Encoded(c))
      && (forall n :: n in connectors ==> n.possibleEncoders != map[])
    }

    /** Exactly one primary plane and at most one cursor plane can be used with the CRTC. */
    ghost predicate Driven(c: CrtcCfg)
      reads this, planes
    {
      && (exists p :: p in planes && p.Serves(c, Primary))
      && AtMostOne(c, Primary) && AtMostOne(c, Cursor)
    }

    ghost predicate AtMostOne(c: CrtcCfg, t: PlaneType)
      reads this, planes
    {
      forall p, q :: p in planes && q in planes && p.Serves(c, t) && q.Serves(c, t) ==> p == q
    }

    ghost predicate Encoded(c: CrtcCfg)
      reads this, encoders
    {
      exists e :: e in encoders && LinksTo(e.possibleCrtcs, c)
    }

    /** Among the first n planes, some plane of the type serves the CRTC. */
    ghost predicate SeenAmong(c: CrtcCfg, t: PlaneType, n: nat)
      requires n <= |planes|
      reads this, planes
    {
      exists i :: 0 <= i < n && planes[i].Serves(c, t)
    }

    ghost predicate OnceAmong(c: CrtcCfg, t: PlaneType, n: nat)
      requires n <= |planes|
      reads this, planes
    {
      forall i, j :: 0 <= i < j < n ==> !(planes[i].Serves(c, t) && planes[j].Serves(c, t))
    }

    /** Counts links with two flags; a CRTC linked twice to one plane would be counted as two planes. */
    method ValidPlanesForCrtc(c: CrtcCfg) returns (valid: bool)
      requires Valid()
      ensures valid <==> Driven(c)
    {
      hide Valid;
      var hasPrimary, hasCursor := false, false;
      for i := 0 to |planes|
        invariant hasPrimary <==> SeenAmong(c, Primary, i)
        invariant hasCursor <==> SeenAmong(c, Cursor, i)
        invariant OnceAmong(c, Primary, i) && OnceAmong(c, Cursor, i)
      {
        LinksAreSound(planes[i]);
        var p := planes[i];
        var todo := p.possibleCrtcs.Keys;
        var primaryBefore, cursorBefore := hasPrimary, hasCursor;
        ghost var found := false;
        while todo != {}
          invariant todo <= p.possibleCrtcs.Keys
          invariant found <==> exists k :: k in p.possibleCrtcs && k !in todo && p.possibleCrtcs[k] == c
          invariant hasPrimary == (primaryBefore || (found && p.kind == Primary))
          invariant hasCursor == (cursorBefore || (found && p.kind == Cursor))
          invariant found ==> !(primaryBefore && p.kind == Primary) && !(cursorBefore && p.kind == Cursor)
          decreases todo
        {
          var k :| k in todo;
          if p.possibleCrtcs[k] == c {
            assert LinksTo(p.possibleCrtcs, c);
            if p.kind == Primary {
              if hasPrimary {
                TwoServe(c, Primary, i);
                return false;
              }
              hasPrimary := true;
            } else if p.kind == Cursor {
              if hasCursor {
                TwoServe(c, Cursor, i);
                return false;
              }
              hasCursor := true;
            }
            found := true;
          }
          todo := todo - {k};
        }
        assert found <==> LinksTo(p.possibleCrtcs, c);
      }
      PositionsToPlanes(c);
      return hasPrimary;
    }

    lemma LinksAreSound(p: PlaneCfg)
      requires Valid() && p in planes
      ensures Sound(p.possibleCrtcs, crtcs)
    {
    }

    lemma TwoServe(c: CrtcCfg, t: PlaneType, i: nat)
      requires Valid() && i < |planes| && SeenAmong(c, t, i) && planes[i].Serves(c, t)
      ensures !AtMostOne(c, t)
    {
    }

    lemma PositionsToPlanes(c: CrtcCfg)
      requires OnceAmong(c, Primary, |planes|) && OnceAmong(c, Cursor, |planes|)
      ensures AtMostOne(c, Primary) && AtMostOne(c, Cursor)
      ensures SeenAmong(c, Primary, |planes|) <==> exists p :: p in planes && p.Serves(c, Primary)
    {
    }

    method ValidEncoderPossibleCrtcs() returns (valid: bool)
      requires Valid()
      ensures valid <==> (forall e :: e in encoders ==> e.possibleCrtcs != map[]) && forall c :: c in crtcs ==> Encoded(c)
    {
      hide Valid;
      for i := 0 to |encoders|
        invariant forall j :: 0 <= j < i ==> encoders[j].possibleCrtcs != map[]
      {
        if encoders[i].possibleCrtcs == map[] {
          return false;
        }
      }
      for i := 0 to |crtcs|
        invariant forall j :: 0 <= j < i ==> Encoded(crtcs[j])
      {
        var crtcHasEncoder := false;
        for j := 0 to |encoders|
          invariant crtcHasEncoder <==> exists k :: 0 <= k < j && LinksTo(encoders[k].possibleCrtcs, crtcs[i])
        {
          var found := Find(encoders[j].possibleCrtcs, crtcs[i]);
          if found {
            crtcHasEncoder := true;
          }
        }
        if !crtcHasEncoder {
          NotEncoded(crtcs[i]);
          return false;
        }
      }
      return true;
    }

    lemma NotEncoded(c: CrtcCfg)
      requires c in crtcs && !exists k :: 0 <= k < |encoders| && LinksTo(encoders[k].possibleCrtcs, c)
      ensures exists d :: d in crtcs && !Encoded(d)
    {
      assert !Encoded(c);
    }

    /** The answer is exactly whether the configuration is usable. */
    method IsValid() returns (valid: bool)
      requires Valid()
      ensures valid <==> Usable()
    {
      hide Valid, Driven, Encoded;
      if |planes| <= 0 || |planes| >= 32 {
        return false;
      }
      if |crtcs| <= 0 || |crtcs| >= 32 {
        return false;
      }
      if |encoders| <= 0 || |encoders| >= 32 {
        return false;
      }
      if |connectors| <= 0 || |connectors| >= 32 {
        return false;
      }
      for i := 0 to |planes|
        invariant forall j :: 0 <= j < i ==> planes[j].possibleCrtcs != map[]
      {
        if planes[i].possibleCrtcs == map[] {
          return false;
        }
      }
      for i := 0 to |crtcs|
        invariant forall j :: 0 <= j < i ==> Driven(crtcs[j])
      {
        var ok := ValidPlanesForCrtc(crtcs[i]);
        if !ok {
          return false;
        }
      }
      var ok := ValidEncoderPossibleCrtcs();
      if !ok {
        return false;
      }
      for i := 0 to |connectors|
        invariant forall j :: 0 <= j < i ==> connectors[j].possibleEncoders != map[]
      {
        if connectors[i].possibleEncoders == map[] {
          return false;
        }
      }
      return true;
    }

    /** The first plane of the type that can be used with the CRTC. */
    method GetPlane(c: CrtcCfg, t: PlaneType) returns (p: PlaneCfg?)
      ensures p == null <==> !SeenAmong(c, t, |planes|)
      ensures p != null ==>
        exists i :: 0 <= i < |planes| && planes[i] == p && p.Serves(c, t) && !SeenAmong(c, t, i)
    {
      for i := 0 to |planes|
        invariant !SeenAmong(c, t, i)
      {
        var found := Find(planes[i].possibleCrtcs, c);
        if found && planes[i].kind == t {
          return planes[i];
        }
      }
      return null;
    }

    /** Device set-up: on a usable configuration the lookup it dereferences is never null and is the only choice. */
    method PrimaryPlane(c: CrtcCfg) returns (p: PlaneCfg?)
      ensures Usable() && c in crtcs ==>
        p != null && p in planes && p.Serves(c, Primary) && forall q :: q in planes && q.Serves(c, Primary) ==> q == p
    {
      p := GetPlane(c, Primary);
    }
  }

  // ---- links; the object linked may belong to another configuration ----

  method PlaneAttachCrtc(p: PlaneCfg, c: CrtcCfg, memory: bool) returns (status: Status)
    requires p.config.Valid() && p in p.config.planes && c in c.config.crtcs
    modifies p`possibleCrtcs
    ensures p.config.Valid()
    ensures status == if p.config != c.config then Invalid else if old(LinksTo(p.possibleCrtcs, c)) then Exists
                      else if !memory then NoMemory else Ok
    ensures status != Ok ==> p.possibleCrtcs == old(p.possibleCrtcs)
    ensures status == Ok ==>
      exists i: nat :: IsLowestFree(old(p.possibleCrtcs), i) && p.possibleCrtcs == old(p.possibleCrtcs)[i := c]
  {
    if p.config != c.config {
      return Invalid;
    }
    ghost var before := p.possibleCrtcs;
    var m;
    status, m := Attach(p.possibleCrtcs, c, memory);
    if status == Ok {
      ghost var i: nat :| IsLowestFree(before, i) && m == before[i := c];
      AttachKeepsSound(before, i, c, p.config.crtcs);
      p.possibleCrtcs := m;
    }
  }

  method EncoderAttachCrtc(e: EncoderCfg, c: CrtcCfg, memory: bool) returns (status: Status)
    requires e.config.Valid() && e in e.config.encoders && c in c.config.crtcs
    modifies e`possibleCrtcs
    ensures e.config.Valid()
    ensures status == if e.config != c.config then Invalid else if old(LinksTo(e.possibleCrtcs, c)) then Exists
                      else if !memory then NoMemory else Ok
    ensures status != Ok ==> e.possibleCrtcs == old(e.possibleCrtcs)
    ensures status == Ok ==>
      exists i: nat :: IsLowestFree(old(e.possibleCrtcs), i) && e.possibleCrtcs == old(e.possibleCrtcs)[i := c]
  {
    if e.config != c.config {
      return Invalid;
    }
    ghost var before := e.possibleCrtcs;
    var m;
    status, m := Attach(e.possibleCrtcs, c, memory);
    if status == Ok {
      ghost var i: nat :| IsLowestFree(before, i) && m == before[i := c];
      AttachKeepsSound(before, i, c, e.config.crtcs);
      e.possibleCrtcs := m;
    }
  }

  method ConnectorAttachEncoder(n: ConnectorCfg, e: EncoderCfg, memory: bool) returns (status: Status)
    requires n.config.Valid() && n in n.config.connectors && e in e.config.encoders
    modifies n`possibleEncoders
    ensures n.config.Valid()
    ensures status == if n.config != e.config then Invalid else if old(LinksTo(n.possibleEncoders, e)) then Exists
                      else if !memory then NoMemory else Ok
    ensures status != Ok ==> n.possibleEncoders == old(n.possibleEncoders)
    ensures status == Ok ==>
      exists i: nat :: IsLowestFree(old(n.possibleEncoders), i) && n.possibleEncoders == old(n.possibleEncoders)[i := e]
  {
    if n.config != e.config {
      return Invalid;
    }
    ghost var before := n.possibleEncoders;
    var m;
    status, m := Attach(n.possibleEncoders, e, memory);
    if status == Ok {
      ghost var i: nat :| IsLowestFree(before, i) && m == before[i := e];
      AttachKeepsSound(before, i, e, n.config.encoders);
      n.possibleEncoders := m;
    }
  }

  method PlaneDetachCrtc(p: PlaneCfg, c: CrtcCfg)
    requires p.config.Valid() && p in p.config.planes
    modifies p`possibleCrtcs
    ensures p.config.Valid() && p.possibleCrtcs == Minus(old(p.possibleCrtcs), c)
  {
    DetachKeepsSound(p.possibleCrtcs, c, p.config.crtcs);
    var m := Detach(p.possibleCrtcs, c);
    p.possibleCrtcs := m;
  }

  method EncoderDetachCrtc(e: EncoderCfg, c: CrtcCfg)
    requires e.config.Valid() && e in e.config.encoders
    modifies e`possibleCrtcs
    ensures e.config.Valid() && e.possibleCrtcs == Minus(old(e.possibleCrtcs), c)
  {
    DetachKeepsSound(e.possibleCrtcs, c, e.config.crtcs);
    var m := Detach(e.possibleCrtcs, c);
    e.possibleCrtcs := m;
  }

  method ConnectorDetachEncoder(n: ConnectorCfg, e: EncoderCfg)
    requires n.config.Valid() && n in n.config.connectors
    modifies n`possibleEncoders
    ensures n.config.Valid() && n.possibleEncoders == Minus(old(n.possibleEncoders), e)
  {
    DetachKeepsSound(n.possibleEncoders, e, n.config.encoders);
    var m := Detach(n.possibleEncoders, e);
    n.possibleEncoders := m;
  }

  /** Attaching and then detaching restores the links that were there before. */
  lemma DetachUndoesAttach<T>(m: Links<T>, i: nat, v: T)
    requires i !in m && !LinksTo(m, v)
    ensures Minus(m[i := v], v) == m
  {
    assert forall k :: k in m ==> m[k] != v;
  }

  // ---- the default configuration; memory(i) says whether the i-th allocation succeeds ----

  const NUM_OVERLAY_PLANES: nat := 8

  ghost predicate AllSucceed(memory: nat -> bool, first: nat, end: nat) {
    forall i: nat :: first <= i < end ==> memory(i)
  }

  /** Every plane listed is one of the given ones or new. */
  twostate predicate OnlyNewPlanes(config: Config)
    reads config
  {
    forall i :: 0 <= i < |config.planes| ==> config.planes[i] in old(config.planes) || fresh(config.planes[i])
  }

  /** A plane of the given type, linked to the one CRTC of a configuration under construction: two allocations. */
  method AddPlane(config: Config, c: CrtcCfg, kind: PlaneType, memory: nat -> bool, n: nat) returns (ok: bool)
    requires config.Valid() && config.crtcs == [c]
    modifies config`planes
    ensures config.Valid() && OnlyNewPlanes(config) && (ok <==> memory(n) && memory(n + 1))
    ensures ok ==>
      && |config.planes| == |old(config.planes)| + 1 && config.planes[..|old(config.planes)|] == old(config.planes)
      && var p := config.planes[|old(config.planes)|];
         fresh(p) && p.kind == kind && p.possibleCrtcs != map[] && LinksTo(p.possibleCrtcs, c)
  {
    var p := config.CreatePlane(memory(n));
    if p == null {
      return false;
    }
    p.kind := kind;
    var status := PlaneAttachCrtc(p, c, memory(n + 1));
    return status == Ok;
  }

  /** One primary plane, then overlays, then at most one cursor, all linked to the CRTC. */
  ghost predicate Arranged(config: Config, c: CrtcCfg, overlays: nat, cursor: bool)
    reads config, config.planes
  {
    && config.crtcs == [c] && |config.planes| == 1 + overlays + (if cursor then 1 else 0)
    && (forall i :: 0 <= i < |config.planes| ==>
          && config.planes[i].kind == (if i == 0 then Primary else if i <= overlays then Overlay else Cursor)
          && config.planes[i].possibleCrtcs != map[] && LinksTo(config.planes[i].possibleCrtcs, c))
  }

  lemma ArrangedIsDriven(config: Config, c: CrtcCfg, overlays: nat, cursor: bool)
    requires Arranged(config, c, overlays, cursor)
    ensures config.Driven(c) && forall p :: p in config.planes ==> p.possibleCrtcs != map[]
  {
    assert config.planes[0].Serves(c, Primary);
  }

  method AddOverlays(config: Config, c: CrtcCfg, memory: nat -> bool, n: nat) returns (ok: bool)
    requires config.Valid() && Arranged(config, c, 0, false)
    modifies config`planes
    ensures config.Valid() && OnlyNewPlanes(config)
    ensures ok <==> AllSucceed(memory, n, n + 2 * NUM_OVERLAY_PLANES)
    ensures ok ==> Arranged(config, c, NUM_OVERLAY_PLANES, false)
  {
    for k := 0 to NUM_OVERLAY_PLANES
      invariant config.Valid() && OnlyNewPlanes(config)
      invariant Arranged(config, c, k, false) && AllSucceed(memory, n, n + 2 * k)
    {
      ok := AddPlane(config, c, Overlay, memory, n + 2 * k);
      if !ok {
        return;
      }
    }
    ok := true;
  }

  /** The primary plane, the CRTC and the link between them. */
  method StartDefault(config: Config, enableWriteback: bool, memory: nat -> bool, n: nat) returns (c: CrtcCfg?, ok: bool)
    requires config.Valid() && config.planes == [] && config.crtcs == []
    modifies config`planes, config`crtcs
    ensures config.Valid() && OnlyNewPlanes(config) && (ok <==> AllSucceed(memory, n, n + 3))
    ensures ok ==> c != null && fresh(c) && Arranged(config, c, 0, false) && c.writeback == enableWriteback
  {
    c := null;
    var p := config.CreatePlane(memory(n));
    if p == null {
      return c, false;
    }
    p.kind := Primary;
    c := config.CreateCrtc(memory(n + 1));
    if c == null {
      return c, false;
    }
    c.writeback := enableWriteback;
    var status := PlaneAttachCrtc(p, c, memory(n + 2));
    ok := status == Ok;
  }

  method AddEncoder(config: Config, c: CrtcCfg, memory: nat -> bool, n: nat) returns (e: EncoderCfg?, ok: bool)
    requires config.Valid() && config.crtcs == [c] && config.encoders == []
    modifies config`encoders
    ensures config.Valid() && (ok <==> memory(n) && memory(n + 1))
    ensures fresh(config.encoders)
    ensures ok ==> e != null && config.encoders == [e] && e.possibleCrtcs != map[] && LinksTo(e.possibleCrtcs, c)
  {
    e := config.CreateEncoder(memory(n));
    if e == null {
      return e, false;
    }
    var status := EncoderAttachCrtc(e, c, memory(n + 1));
    ok := status == Ok;
  }

  method AddConnector(config: Config, e: EncoderCfg, memory: nat -> bool, n: nat) returns (ok: bool)
    requires config.Valid() && config.encoders == [e] && config.connectors == []
    modifies config`connectors
    ensures config.Valid() && (ok <==> memory(n) && memory(n + 1))
    ensures fresh(config.connectors)
    ensures ok ==> |config.connectors| == 1 && config.connectors[0].possibleEncoders != map[]
  {
    var x := config.CreateConnector(memory(n));
    if x == null {
      return false;
    }
    var status := ConnectorAttachEncoder(x, e, memory(n + 1));
    ok := status == Ok;
  }

  /** Allocations for the planes, the CRTC and the links between them. */
  function PlaneAllocations(overlay: bool, cursor: bool): nat {
    3 + (if overlay then 2 * NUM_OVERLAY_PLANES else 0) + (if cursor then 2 else 0)
  }

  method AddPlanes(config: Config, enableCursor: bool, enableWriteback: bool, enableOverlay: bool,
                   memory: nat -> bool, n: nat) returns (c: CrtcCfg?, ok: bool)
    requires config.Valid() && config.planes == [] && config.crtcs == []
    modifies config`planes, config`crtcs
    ensures config.Valid() && OnlyNewPlanes(config)
    ensures ok <==> AllSucceed(memory, n, n + PlaneAllocations(enableOverlay, enableCursor))
    ensures ok ==> c != null && fresh(c) && c.writeback == enableWriteback
                   && Arranged(config, c, if enableOverlay then NUM_OVERLAY_PLANES else 0, enableCursor)
  {
    hide Sound, LinksTo;
    c, ok := StartDefault(config, enableWriteback, memory, n);
    if !ok {
      return;
    }
    var next := n + 3;
    if enableOverlay {
      ok := AddOverlays(config, c, memory, next);
      if !ok {
        return;
      }
      next := next + 2 * NUM_OVERLAY_PLANES;
    }
    if enableCursor {
      ok := AddPlane(config, c, Cursor, memory, next);
    }
  }

  /** All allocations of the default configuration: itself, the planes' part, an encoder and a connector. */
  function Allocations(overlay: bool, cursor: bool): nat { 1 + PlaneAllocations(overlay, cursor) + 4 }

  /** Everything in the configuration was made since. */
  twostate predicate AllNew(config: Config)
    reads config
  {
    fresh(config.planes) && fresh(config.encoders) && fresh(config.connectors)
  }

  lemma DefaultIsUsable(config: Config, c: CrtcCfg, overlays: nat, cursor: bool, e: EncoderCfg)
    requires Arranged(config, c, overlays, cursor) && overlays <= NUM_OVERLAY_PLANES
    requires config.encoders == [e] && e.possibleCrtcs != map[] && LinksTo(e.possibleCrtcs, c)
    requires |config.connectors| == 1 && config.connectors[0].possibleEncoders != map[]
    ensures config.Usable()
  {
    hide LinksTo, Config.Driven;
    ArrangedIsDriven(config, c, overlays, cursor);
    assert e in config.encoders && config.Encoded(c);
  }

  method FillDefault(config: Config, enableCursor: bool, enableWriteback: bool, enableOverlay: bool,
                     memory: nat -> bool, n: nat) returns (ok: bool)
    requires config.Valid()
    requires config.planes == [] && config.crtcs == [] && config.encoders == [] && config.connectors == []
    modifies config
    ensures config.Valid() && AllNew(config)
    ensures ok <==> AllSucceed(memory, n, n + PlaneAllocations(enableOverlay, enableCursor) + 4)
    ensures ok ==>
      && config.Usable() && |config.crtcs| == 1 && config.crtcs[0].writeback == enableWriteback
      && |config.planes| == 1 + (if enableOverlay then NUM_OVERLAY_PLANES else 0) + (if enableCursor then 1 else 0)
  {
    hide Sound, LinksTo, Config.Usable, Distinct, PlaneAllocations;
    var c, e;
    c, ok := AddPlanes(config, enableCursor, enableWriteback, enableOverlay, memory, n);
    if !ok {
      return;
    }
    var next := n + PlaneAllocations(enableOverlay, enableCursor);
    e, ok := AddEncoder(config, c, memory, next);
    if !ok {
      return;
    }
    ok := AddConnector(config, e, memory, next + 2);
    if !ok {
      return;
    }
    DefaultIsUsable(config, c, if enableOverlay then NUM_OVERLAY_PLANES else 0, enableCursor, e);
  }

  /**
   * The default device's configuration passes the validator, whatever is enabled. There is none exactly if
   * some allocation fails; what was built until then is destroyed.
   */
  method DefaultCreate(enableCursor: bool, enableWriteback: bool, enableOverlay: bool, memory: nat -> bool)
    returns (config: Config?)
    ensures config != null <==> AllSucceed(memory, 0, Allocations(enableOverlay, enableCursor))
    ensures config != null ==>
      && fresh(config) && config.Valid() && config.Usable()
      && |config.crtcs| == 1 && config.crtcs[0].writeback == enableWriteback
      && |config.planes| == 1 + (if enableOverlay then NUM_OVERLAY_PLANES else 0) + (if enableCursor then 1 else 0)
  {
    hide Config.Valid, Config.Usable, PlaneAllocations;
    if !memory(0) {
      return null;
    }
    config := new Config();
    var ok := FillDefault(config, enableCursor, enableWriteback, enableOverlay, memory, 1);
    if !ok {
      config.Destroy();
      return null;
    }
  }
}
