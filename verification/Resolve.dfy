/**
 Type names of example/nats/protoc-gen-demo/main.go: splitting a fully qualified name, finding
 the file of its package and walking down the nested messages.
 */
module Resolve {
  import opened Machine

  // ---------------------------------------------------------------------------------------
  // Dotted names
  // ---------------------------------------------------------------------------------------

  const DOT := '.'
  const SEMICOLON := ';'

  /** `strings.Split(s, sep)` for a one-character separator. */
  function Split(s: string, sep: char): (parts: seq<string>)
    ensures parts != []
    decreases |s|
  {
    if s == [] then [[]]
    else
      var rest := Split(s[1..], sep);
      if s[0] == sep then [[]] + rest else [[s[0]] + rest[0]] + rest[1..]
  }

  lemma {:induction false} SplitSeveral(s: string, sep: char)
    ensures |Split(s, sep)| > 1 <==> sep in s
    decreases |s|
  {
    if s != [] { SplitSeveral(s[1..], sep); }
  }

  /** `strings.Join(parts, sep)` for a one-character separator. */
  function Join(parts: seq<string>, sep: char): string {
    if parts == [] then []
    else if |parts| == 1 then parts[0]
    else parts[0] + [sep] + Join(parts[1..], sep)
  }

  /** `strings.Replace(s, ".", "_", -1)`. */
  function Underscored(s: string): (r: string)
    ensures |r| == |s| && forall k :: 0 <= k < |s| ==> r[k] == if s[k] == DOT then '_' else s[k]
  {
    seq(|s|, k requires 0 <= k < |s| => if s[k] == DOT then '_' else s[k])
  }

  ghost predicate DotFree(parts: seq<string>) {
    forall p :: p in parts ==> DOT !in p
  }

  /** Splitting yields the dot-free parts that join to the name. */
  lemma {:induction false} SplitJoins(s: string)
    ensures DotFree(Split(s, DOT)) && Join(Split(s, DOT), DOT) == s
    decreases |s|
  {
    if s != [] {
      SplitJoins(s[1..]);
      var rest := Split(s[1..], DOT);
      if s[0] == DOT {
        assert ([[]] + rest)[1..] == rest;
      } else {
        var parts := Split(s, DOT);
        assert parts[1..] == rest[1..];
        assert rest[0] in rest;
      }
      assert s == [s[0]] + s[1..];
    }
  }

  /** And they are the only such parts. */
  lemma {:induction false} JoinSplits(parts: seq<string>)
    requires parts != [] && DotFree(parts)
    ensures Split(Join(parts, DOT), DOT) == parts
    decreases |parts|, |parts[0]|
  {
    var p, tail := parts[0], parts[1..];
    var s := Join(parts, DOT);
    if p == [] {
      if tail == [] {
        assert parts == [[]];
      } else {
        JoinSplits(tail);
        assert s == [DOT] + Join(tail, DOT);
        assert parts == [[]] + tail;
      }
    } else {
      var shorter := [p[1..]] + tail;
      assert p in parts && p[0] in p;
      JoinSplits(shorter);
      assert s[1..] == Join(shorter, DOT);
      assert [p[0]] + p[1..] == p && [p] + tail == parts && shorter[1..] == tail;
    }
  }

  lemma {:induction false} JoinConcat(a: seq<string>, b: seq<string>, sep: char)
    requires a != [] && b != []
    ensures Join(a + b, sep) == Join(a, sep) + [sep] + Join(b, sep)
    decreases |a|
  {
    assert (a + b)[1..] == a[1..] + b;
    if |a| > 1 { JoinConcat(a[1..], b, sep); }
  }

  /** Joining with dots and then underscoring is joining with underscores. */
  lemma {:induction false} UnderscoredJoin(parts: seq<string>)
    requires DotFree(parts)
    ensures Underscored(Join(parts, DOT)) == Join(parts, '_')
    decreases |parts|
  {
    if parts != [] {
      assert parts[0] in parts;
      assert Underscored(parts[0]) == parts[0];
      if |parts| > 1 {
        UnderscoredJoin(parts[1..]);
        assert Join(parts, DOT) == parts[0] + [DOT] + Join(parts[1..], DOT);
      }
    }
  }

  // ---------------------------------------------------------------------------------------
  // Files and messages
  // ---------------------------------------------------------------------------------------

  datatype Descriptor = Descriptor(name: string, nested: seq<Descriptor>)

  datatype File = File(package: string, goPackage: string, messages: seq<Descriptor>)

  /** `log.Fatal` ends the program with a message; an index out of range ends it with a panic. */
  datatype Result<+T> = Done(value: T) | Fatal | Panicked

  /** `lookupFileDescriptor`: the first file of that package. */
  method LookupFile(files: seq<File>, package: string) returns (fd: Option<File>)
    ensures fd.Some? ==> IsFirstFile(files, fd.value, package)
    ensures fd.None? <==> !Known(files, package)
  {
    for k := 0 to |files|
      invariant forall j :: 0 <= j < k ==> files[j].package != package
    {
      if files[k].package == package {
        return Some(files[k]);
      }
    }
    return None;
  }

  ghost predicate Known(files: seq<File>, package: string) {
    exists k :: 0 <= k < |files| && files[k].package == package
  }

  ghost predicate IsFirstFile(files: seq<File>, fd: File, package: string) {
    exists k :: && 0 <= k < |files| && files[k] == fd && fd.package == package
                && forall j :: 0 <= j < k ==> files[j].package != package
  }

  /** The first message of that name. */
  method FindMessage(ds: seq<Descriptor>, name: string) returns (d: Option<Descriptor>)
    ensures d == First(ds, name)
  {
    ghost var all := ds;
    for k := 0 to |ds|
      invariant First(ds[k..], name) == First(ds, name)
    {
      if ds[k].name == name {
        return Some(ds[k]);
      }
      assert ds[k..][1..] == ds[k + 1..];
    }
    return None;
  }

  function First(ds: seq<Descriptor>, name: string): (d: Option<Descriptor>)
    ensures d.Some? ==> d.value in ds && d.value.name == name
    ensures d.None? <==> forall e :: e in ds ==> e.name != name
  {
    if ds == [] then None else if ds[0].name == name then Some(ds[0]) else First(ds[1..], name)
  }

  /** Of several messages with one name it is the first. */
  lemma {:induction false} FirstMatch(ds: seq<Descriptor>, k: nat)
    requires k < |ds| && forall j :: 0 <= j < k ==> ds[j].name != ds[k].name
    ensures First(ds, ds[k].name) == Some(ds[k])
    decreases |ds|
  {
    if k > 0 { FirstMatch(ds[1..], k - 1); }
  }

  /** The descriptor reached from ds along the names, taking the first match at each level. */
  function Walk(ds: seq<Descriptor>, names: seq<string>): Option<Descriptor>
    requires names != []
    decreases |names|
  {
    match First(ds, names[0])
    case None => None
    case Some(d) => if |names| == 1 then Some(d) else Walk(d.nested, names[1..])
  }

  /** A chain of descriptors, each nested in the one before, that bear the names. */
  ghost predicate Chain(ds: seq<Descriptor>, names: seq<string>, chain: seq<Descriptor>) {
    && |chain| == |names| > 0 && chain[0] in ds
    && (forall k :: 0 <= k < |names| ==> chain[k].name == names[k])
    && (forall k :: 0 < k < |names| ==> chain[k] in chain[k - 1].nested)
  }

  /** The walk follows a chain that ends in the descriptor it returns. */
  lemma {:induction false} WalkFollows(ds: seq<Descriptor>, names: seq<string>) returns (chain: seq<Descriptor>)
    requires names != [] && Walk(ds, names).Some?
    ensures Chain(ds, names, chain) && chain[|chain| - 1] == Walk(ds, names).value
    decreases |names|
  {
    var d := First(ds, names[0]).value;
    if |names| == 1 {
      chain := [d];
    } else {
      var rest := WalkFollows(d.nested, names[1..]);
      chain := [d] + rest;
      assert forall k :: 0 < k < |names| ==> chain[k] == rest[k - 1] && names[k] == names[1..][k - 1];
    }
  }

  /** Where no two siblings share a name, it is the only chain, so every chain is found. */
  ghost predicate Distinct(ds: seq<Descriptor>, depth: nat) {
    && (forall d, e :: d in ds && e in ds && d.name == e.name ==> d == e)
    && (depth > 0 ==> forall d :: d in ds ==> Distinct(d.nested, depth - 1))
  }

  lemma {:induction false} WalkFinds(ds: seq<Descriptor>, names: seq<string>, chain: seq<Descriptor>)
    requires Chain(ds, names, chain) && Distinct(ds, |names|)
    ensures Walk(ds, names) == Some(chain[|chain| - 1])
    decreases |names|
  {
    assert First(ds, names[0]) == Some(chain[0]);
    if |names| > 1 {
      var rest := chain[1..];
      assert rest[0] == chain[1];
      assert forall k :: 0 < k < |names| - 1 ==> rest[k] == chain[k + 1] && rest[k - 1] == chain[k];
      assert Distinct(chain[0].nested, |names| - 1);
      WalkFinds(chain[0].nested, names[1..], rest);
    }
  }

  // ---------------------------------------------------------------------------------------
  // Looking up a message type
  // ---------------------------------------------------------------------------------------

  /** `splitTypePath`. */
  function SplitTypePath(name: string): Result<seq<string>> {
    if name == [] || name[0] != DOT then Fatal else Done(Split(name[1..], DOT))
  }

  datatype Found = Found(fd: File, d: Descriptor)

  /** The first k components are the longest known package in front of a last component. The
      empty package is only tried for a name of one component. */
  ghost predicate IsPackage(files: seq<File>, path: seq<string>, k: nat) {
    && k < |path| && (k == 0 ==> |path| == 1)
    && Known(files, Join(path[..k], DOT))
    && forall j :: k < j < |path| ==> !Known(files, Join(path[..j], DOT))
  }

  /** What `lookupMessageType` owes for each of its endings. */
  ghost predicate Resolves(files: seq<File>, name: string, r: Result<Found>) {
    match SplitTypePath(name)
    case Done(path) =>
      (match r
       case Done(f) => exists k: nat :: IsPackage(files, path, k) && Reached(files, path, k, f)
       case Panicked => |path| == 1 && !Known(files, [])
       case Fatal =>
         || (|path| > 1 && forall k: nat :: !IsPackage(files, path, k))
         || exists k: nat :: IsPackage(files, path, k) && forall f :: !Reached(files, path, k, f))
    case _ => r == Fatal
  }

  ghost predicate Reached(files: seq<File>, path: seq<string>, k: nat, f: Found)
    requires k < |path|
  {
    IsFirstFile(files, f.fd, Join(path[..k], DOT)) && Walk(f.fd.messages, path[k..]) == Some(f.d)
  }

  lemma PackageUnique(files: seq<File>, path: seq<string>, k: nat, l: nat)
    requires IsPackage(files, path, k) && IsPackage(files, path, l)
    ensures k == l
  {
  }

  lemma FirstFileUnique(files: seq<File>, a: File, b: File, package: string)
    requires IsFirstFile(files, a, package) && IsFirstFile(files, b, package)
    ensures a == b
  {
    var k :| && 0 <= k < |files| && files[k] == a && a.package == package
             && forall j :: 0 <= j < k ==> files[j].package != package;
    var l :| && 0 <= l < |files| && files[l] == b && b.package == package
             && forall j :: 0 <= j < l ==> files[j].package != package;
    assert k == l;
  }

  /** They leave one ending for every name. */
  lemma ResolvesUnique(files: seq<File>, name: string, r: Result<Found>, q: Result<Found>)
    requires Resolves(files, name, r) && Resolves(files, name, q)
    ensures r == q
  {
    hide IsFirstFile, Known, Walk, Join;
    match SplitTypePath(name)
    case Done(path) =>
      forall k: nat, l: nat | IsPackage(files, path, k) && IsPackage(files, path, l) ensures k == l {
        PackageUnique(files, path, k, l);
      }
      forall k: nat, f, g | k < |path| && Reached(files, path, k, f) && Reached(files, path, k, g) ensures f == g {
        FirstFileUnique(files, f.fd, g.fd, Join(path[..k], DOT));
      }
      if |path| == 1 && (r.Panicked? || q.Panicked?) {
        assert forall k: nat :: IsPackage(files, path, k) ==> k == 0;
        JoinNothing(path);
      }
    case _ =>
  }

  lemma JoinNothing(path: seq<string>)
    ensures Join(path[..0], DOT) == []
  {
  }

  method LookupMessageType(files: seq<File>, name: string) returns (r: Result<Found>)
    ensures Resolves(files, name, r)
  {
    hide Known, IsFirstFile, Join, Walk;
    var split := SplitTypePath(name);
    if !split.Done? {
      return Fatal;
    }
    var path := split.value;
    var k := |path| - 1;
    var fd := LookupFile(files, Join(path[..k], DOT));
    while fd.None?
      invariant 0 <= k < |path| && (k == 0 ==> |path| == 1)
      invariant forall j :: k < j < |path| ==> !Known(files, Join(path[..j], DOT))
      invariant fd.None? <==> !Known(files, Join(path[..k], DOT))
      invariant fd.Some? ==> IsFirstFile(files, fd.value, Join(path[..k], DOT))
      decreases k
    {
      if k == 1 {
        return Fatal;
      }
      if k == 0 {
        JoinNothing(path);
        return Panicked;
      }
      k := k - 1;
      fd := LookupFile(files, Join(path[..k], DOT));
    }
    assert IsPackage(files, path, k);
    var d := Descend(fd.value.messages, path[k..]);
    if d.None? {
      NothingReached(files, path, k, fd.value);
      return Fatal;
    }
    r := Done(Found(fd.value, d.value));
    assert Reached(files, path, k, r.value);
  }

  lemma NothingReached(files: seq<File>, path: seq<string>, k: nat, fd: File)
    requires k < |path| && IsFirstFile(files, fd, Join(path[..k], DOT)) && Walk(fd.messages, path[k..]) == None
    ensures forall f :: !Reached(files, path, k, f)
  {
    hide IsFirstFile, Join, Walk;
    forall f ensures !Reached(files, path, k, f) {
      if Reached(files, path, k, f) {
        FirstFileUnique(files, fd, f.fd, Join(path[..k], DOT));
      }
    }
  }

  /** The two searches behind the package: among the messages of the file, then level by
      level among the nested ones. */
  method Descend(messages: seq<Descriptor>, path: seq<string>) returns (d: Option<Descriptor>)
    requires path != []
    ensures d == Walk(messages, path)
  {
    d := FindMessage(messages, path[0]);
    if d.None? {
      return;
    }
    var i := 1;
    while i < |path|
      invariant 1 <= i <= |path| && d.Some?
      invariant Walk(messages, path) == if i == |path| then d else Walk(d.value.nested, path[i..])
    {
      var found := FindMessage(d.value.nested, path[i]);
      if found.None? {
        return None;
      }
      assert path[i..][1..] == path[i + 1..];
      d := found;
      i := i + 1;
    }
  }

  // ---------------------------------------------------------------------------------------
  // What a resolved name means
  // ---------------------------------------------------------------------------------------

  /** Any way to cut a name at a dot cuts its components. */
  lemma {:induction false} CutName(s: string, prefix: string, rest: string)
    requires s == prefix + [DOT] + rest
    ensures Split(s, DOT) == Split(prefix, DOT) + Split(rest, DOT)
  {
    SplitJoins(prefix);
    SplitJoins(rest);
    JoinConcat(Split(prefix, DOT), Split(rest, DOT), DOT);
    JoinSplits(Split(prefix, DOT) + Split(rest, DOT));
  }

  /** A front of the components and the rest make up the name. */
  lemma Rejoin(s: string, k: nat)
    requires 0 < k < |Split(s, DOT)|
    ensures var path := Split(s, DOT); s == Join(path[..k], DOT) + [DOT] + Join(path[k..], DOT)
  {
    var path := Split(s, DOT);
    SplitJoins(s);
    assert path == path[..k] + path[k..];
    JoinConcat(path[..k], path[k..], DOT);
  }

  lemma LongerFront(path: seq<string>, j: nat, k: nat)
    requires 0 < j <= k <= |path|
    ensures |Join(path[..j], DOT)| <= |Join(path[..k], DOT)|
  {
    if j < k {
      assert path[..k] == path[..j] + path[j..k];
      JoinConcat(path[..j], path[j..k], DOT);
    }
  }

  lemma NoLongerPackage(files: seq<File>, s: string, k: nat, prefix: string, rest: string)
    requires IsPackage(files, Split(s, DOT), k) && k > 0
    requires s == prefix + [DOT] + rest && |prefix| > |Join(Split(s, DOT)[..k], DOT)|
    ensures !Known(files, prefix)
  {
    hide Known, Join, Split;
    var path, j := Split(s, DOT), |Split(prefix, DOT)|;
    CutName(s, prefix, rest);
    SplitJoins(prefix);
    assert path[..j] == Split(prefix, DOT);
    if j <= k { LongerFront(path, j, k); }
  }

  /** A name with a package component resolves to a file of the longest known package in
      front of its last component and to the end of a chain of messages below it, and package
      and chain make up the name. */
  lemma ResolutionSound(files: seq<File>, name: string, f: Found) returns (walk: seq<string>, chain: seq<Descriptor>)
    requires Resolves(files, name, Done(f)) && DOT in name[1..]
    ensures f.fd in files && Chain(f.fd.messages, walk, chain) && chain[|chain| - 1] == f.d
    ensures DotFree(walk) && name == [DOT] + f.fd.package + [DOT] + Join(walk, DOT)
    ensures forall prefix, rest | name[1..] == prefix + [DOT] + rest && |prefix| > |f.fd.package| ::
              !Known(files, prefix)
  {
    hide Known, Split, Join, Walk, Chain;
    var s := name[1..];
    var path := Split(s, DOT);
    SplitSeveral(s, DOT);
    SplitJoins(s);
    var k: nat :| IsPackage(files, path, k) && Reached(files, path, k, f);
    walk := path[k..];
    chain := WalkFollows(f.fd.messages, walk);
    Rejoin(s, k);
    assert name == [DOT] + s;
    forall prefix, rest | s == prefix + [DOT] + rest && |prefix| > |f.fd.package| ensures !Known(files, prefix) {
      NoLongerPackage(files, s, k, prefix, rest);
    }
  }

  lemma StrictlyLonger(path: seq<string>, j: nat, k: nat)
    requires 0 < j < k <= |path|
    ensures |Join(path[..j], DOT)| < |Join(path[..k], DOT)|
  {
    assert path[..k] == path[..j] + path[j..k];
    JoinConcat(path[..j], path[j..k], DOT);
  }

  /** The components of a message below a package. */
  lemma PathOf(package: string, walk: seq<string>)
    requires walk != [] && DotFree(walk)
    ensures var path, k := Split(package + [DOT] + Join(walk, DOT), DOT), |Split(package, DOT)|;
            && path == Split(package, DOT) + walk && path[k..] == walk && Join(path[..k], DOT) == package
            && forall j :: k < j < |path| ==> Join(path[..j], DOT) == package + [DOT] + Join(walk[..j - k], DOT)
  {
    var s := package + [DOT] + Join(walk, DOT);
    var path, k := Split(s, DOT), |Split(package, DOT)|;
    CutName(s, package, Join(walk, DOT));
    JoinSplits(walk);
    SplitJoins(package);
    assert path[..k] == Split(package, DOT);
    forall j | k < j < |path| ensures Join(path[..j], DOT) == package + [DOT] + Join(walk[..j - k], DOT) {
      assert path[..j] == Split(package, DOT) + walk[..j - k];
      JoinConcat(Split(package, DOT), walk[..j - k], DOT);
    }
  }

  /** No package that is known leads further into the names of the walk. */
  ghost predicate NoneLonger(files: seq<File>, package: string, walk: seq<string>) {
    forall j | 0 < j < |walk| :: !Known(files, package + [DOT] + Join(walk[..j], DOT))
  }

  lemma PackageOfPath(files: seq<File>, package: string, walk: seq<string>)
    requires walk != [] && DotFree(walk) && Known(files, package)
    ensures var path, k := Split(package + [DOT] + Join(walk, DOT), DOT), |Split(package, DOT)|;
            IsPackage(files, path, k) <==> NoneLonger(files, package, walk)
  {
    hide Split, Join, Known;
    var path, k := Split(package + [DOT] + Join(walk, DOT), DOT), |Split(package, DOT)|;
    PathOf(package, walk);
    if IsPackage(files, path, k) {
      forall j | 0 < j < |walk| ensures !Known(files, package + [DOT] + Join(walk[..j], DOT)) {
        assert walk[..j] == walk[..(k + j) - k];
        assert !Known(files, Join(path[..k + j], DOT));
      }
    }
  }

  /** A file is only reached through its own package. */
  lemma OwnPackage(files: seq<File>, package: string, walk: seq<string>, l: nat, f: Found)
    requires walk != [] && DotFree(walk) && f.fd.package == package
    requires var path := Split(package + [DOT] + Join(walk, DOT), DOT);
             l < |path| && (l == 0 ==> |path| == 1) && Reached(files, path, l, f)
    ensures l == |Split(package, DOT)|
  {
    hide Split, Join, Known, Walk;
    var path, k := Split(package + [DOT] + Join(walk, DOT), DOT), |Split(package, DOT)|;
    PathOf(package, walk);
    if l < k { StrictlyLonger(path, l, k); }
  }

  /** The name of a message resolves to it exactly when its file is the first one of its
      package and no package is known that leads further into the name. */
  lemma ResolutionComplete(files: seq<File>, fd: File, walk: seq<string>, chain: seq<Descriptor>)
    requires fd in files && DotFree(walk) && Chain(fd.messages, walk, chain) && Distinct(fd.messages, |walk|)
    ensures Resolves(files, [DOT] + fd.package + [DOT] + Join(walk, DOT), Done(Found(fd, chain[|chain| - 1])))
        <==> IsFirstFile(files, fd, fd.package) && NoneLonger(files, fd.package, walk)
  {
    hide Join, Walk, Chain, Distinct, IsFirstFile, Known, NoneLonger, Resolves;
    ChainLength(fd.messages, walk, chain);
    var f := Found(fd, chain[|chain| - 1]);
    KnownFile(files, fd);
    WalkFinds(fd.messages, walk, chain);
    if Resolves(files, [DOT] + fd.package + [DOT] + Join(walk, DOT), Done(f)) {
      ResolvedIsFirst(files, walk, f);
    }
    if IsFirstFile(files, fd, fd.package) && NoneLonger(files, fd.package, walk) {
      FirstIsResolved(files, walk, f);
    }
  }

  lemma ResolvedIsFirst(files: seq<File>, walk: seq<string>, f: Found)
    requires walk != [] && DotFree(walk) && Known(files, f.fd.package)
    requires Resolves(files, [DOT] + f.fd.package + [DOT] + Join(walk, DOT), Done(f))
    ensures IsFirstFile(files, f.fd, f.fd.package) && NoneLonger(files, f.fd.package, walk)
  {
    hide Split, Join, Walk, Known, NoneLonger, IsFirstFile;
    var s := f.fd.package + [DOT] + Join(walk, DOT);
    assert ([DOT] + f.fd.package + [DOT] + Join(walk, DOT))[1..] == s;
    var path := Split(s, DOT);
    var l: nat :| IsPackage(files, path, l) && Reached(files, path, l, f);
    OwnPackage(files, f.fd.package, walk, l, f);
    PathOf(f.fd.package, walk);
    PackageOfPath(files, f.fd.package, walk);
  }

  lemma FirstIsResolved(files: seq<File>, walk: seq<string>, f: Found)
    requires walk != [] && DotFree(walk) && Known(files, f.fd.package)
    requires IsFirstFile(files, f.fd, f.fd.package) && NoneLonger(files, f.fd.package, walk)
    requires Walk(f.fd.messages, walk) == Some(f.d)
    ensures Resolves(files, [DOT] + f.fd.package + [DOT] + Join(walk, DOT), Done(f))
  {
    hide Split, Join, Walk, Known, NoneLonger, IsPackage, IsFirstFile;
    var s := f.fd.package + [DOT] + Join(walk, DOT);
    assert ([DOT] + f.fd.package + [DOT] + Join(walk, DOT))[1..] == s;
    var path, k := Split(s, DOT), |Split(f.fd.package, DOT)|;
    PathOf(f.fd.package, walk);
    PackageOfPath(files, f.fd.package, walk);
    assert IsPackage(files, path, k) && Reached(files, path, k, f);
  }

  lemma ChainLength(ds: seq<Descriptor>, names: seq<string>, chain: seq<Descriptor>)
    requires Chain(ds, names, chain)
    ensures |chain| == |names| > 0
  {
  }

  lemma KnownFile(files: seq<File>, fd: File)
    requires fd in files
    ensures Known(files, fd.package)
  {
  }

  /** A package split over two files: a message of the second one is not found. */
  lemma SplitPackageExample(a: File, b: File)
    requires a.package == b.package == "p" && b.messages == [Descriptor("B", [])] && First(a.messages, "B") == None
    ensures Resolves([a, b], ".p.B", Fatal)
  {
    hide Split, Join;
    var files, path := [a, b], ["p", "B"];
    JoinOne("p");
    JoinOne("B");
    PathOf("p", ["B"]);
    JoinSplits(["p"]);
    assert ".p.B"[1..] == "p" + [DOT] + "B" && path == ["p"] + ["B"] && path[..1] == ["p"] && path[1..] == ["B"];
    assert files[0] == a && Known(files, "p") && IsFirstFile(files, a, "p");
    assert IsPackage(files, path, 1);
    forall f ensures !Reached(files, path, 1, f) {
      if IsFirstFile(files, f.fd, "p") { FirstFileUnique(files, f.fd, a, "p"); }
    }
  }

  lemma JoinOne(p: string)
    ensures Join([p], DOT) == p
  {
  }

  // ---------------------------------------------------------------------------------------
  // Go types
  // ---------------------------------------------------------------------------------------

  /** `strings.TrimPrefix`. */
  function TrimPrefix(s: string, prefix: string): string {
    if prefix <= s then s[|prefix|..] else s
  }

  /** `getGoPackage`: what follows a semicolon, of which there may be one. */
  function GoPackage(fd: File): (r: Result<string>)
    ensures !r.Panicked?
  {
    var pkg := fd.goPackage;
    if SEMICOLON in pkg then
      SplitSeveral(pkg, SEMICOLON);
      var parts := Split(pkg, SEMICOLON);
      if |parts| > 2 then Fatal else Done(parts[1])
    else Done(pkg)
  }

  lemma {:induction false} SplitOnce(p: string, q: string, sep: char)
    requires sep !in p
    ensures Split(p + [sep] + q, sep) == [p] + Split(q, sep)
    decreases |p|
  {
    var s := p + [sep] + q;
    if p == [] {
      assert s[1..] == q;
    } else {
      SplitOnce(p[1..], q, sep);
      assert s[1..] == p[1..] + [sep] + q && p == [p[0]] + p[1..];
    }
  }

  lemma {:induction false} SplitNone(s: string, sep: char)
    requires sep !in s
    ensures Split(s, sep) == [s]
    decreases |s|
  {
    if s != [] {
      SplitNone(s[1..], sep);
      assert s == [s[0]] + s[1..];
    }
  }

  /** Without a semicolon (59) the option is the package; with one it is what comes behind; with
      more it is an error. */
  lemma GoPackageParts(fd: File, p: string, q: string)
    requires SEMICOLON !in p
    ensures SEMICOLON as int == 59
    ensures fd.goPackage == p ==> GoPackage(fd) == Done(p)
    ensures fd.goPackage == p + [SEMICOLON] + q ==> GoPackage(fd) == if SEMICOLON in q then Fatal else Done(q)
  {
    hide Split;
    SplitOnce(p, q, SEMICOLON);
    SplitSeveral(q, SEMICOLON);
    if SEMICOLON !in q { SplitNone(q, SEMICOLON); }
  }

  datatype GoType = GoType(package: string, name: string)

  function GoName(pbType: string, package: string): string {
    Underscored(TrimPrefix(pbType, [DOT] + package + [DOT]))
  }

  /** The Go type of a resolved name. */
  function GoTypeOf(pbType: string, found: Result<Found>): Result<GoType> {
    match found
    case Done(f) =>
      var pkg := GoPackage(f.fd);
      if pkg.Done? then Done(GoType(pkg.value, GoName(pbType, f.fd.package))) else Fatal
    case Fatal => Fatal
    case Panicked => Panicked
  }

  /** `getGoType`. */
  method GetGoType(files: seq<File>, pbType: string) returns (r: Result<GoType>)
    ensures DOT !in pbType ==> r == Done(GoType([], pbType))
    ensures DOT in pbType ==> exists q :: Resolves(files, pbType, q) && r == GoTypeOf(pbType, q)
  {
    hide Resolves, GoPackage, GoName;
    if DOT !in pbType {
      return Done(GoType([], pbType));
    }
    var found := LookupMessageType(files, pbType);
    match found {
      case Fatal => return Fatal;
      case Panicked => return Panicked;
      case Done(f) =>
        var name := GoName(pbType, f.fd.package);
        match GoPackage(f.fd) {
          case Fatal => return Fatal;
          case Done(package) => return Done(GoType(package, name));
        }
    }
  }

  /** The Go name of a message is its chain of names joined with underscores exactly when the
      name has a package component. Without one the message is found in the empty package,
      the prefix to trim is not there, and the name keeps a leading underscore. */
  lemma GoNameExact(files: seq<File>, name: string, f: Found, k: nat)
    requires Resolves(files, name, Done(f))
    requires IsPackage(files, Split(name[1..], DOT), k)
    ensures GoName(name, f.fd.package) == Join(Split(name[1..], DOT)[k..], '_') <==> DOT in name[1..]
    ensures DOT !in name[1..] ==> GoName(name, f.fd.package) == "_" + name[1..]
  {
    hide Known, Split, Join, Walk;
    var s := name[1..];
    var path := Split(s, DOT);
    SplitSeveral(s, DOT);
    SplitJoins(s);
    var l: nat :| IsPackage(files, path, l) && Reached(files, path, l, f);
    PackageUnique(files, path, k, l);
    assert name == [DOT] + s;
    if k > 0 {
      Rejoin(s, k);
      var walk := path[k..];
      assert name == [DOT] + f.fd.package + [DOT] + Join(walk, DOT);
      assert TrimPrefix(name, [DOT] + f.fd.package + [DOT]) == Join(walk, DOT);
      UnderscoredJoin(walk);
    } else {
      JoinNothing(path);
      OneComponent(s);
    }
  }

  lemma OneComponent(s: string)
    requires DOT !in s
    ensures Split(s, DOT) == [s] && Join([s][0..], '_') == s
    ensures GoName([DOT] + s, []) == "_" + s
  {
    hide Split;
    JoinSplits([s]);
    assert [s][0..] == [s];
    var name, prefix := [DOT] + s, [DOT] + [] + [DOT];
    if s != [] { assert name[1] == s[0]; }
    assert prefix[1] == DOT && !(prefix <= name);
    assert Underscored(name) == "_" + s;
  }

  /** A message of the empty package is found and named with a leading underscore; without a
      file of that package the lookup panics. */
  lemma NoPackageExample(fd: File)
    requires fd.package == "" && fd.messages == [Descriptor("Foo", [])]
    ensures Resolves([fd], ".Foo", Done(Found(fd, fd.messages[0]))) && GoName(".Foo", fd.package) == "_Foo"
    ensures Resolves([], ".Foo", Panicked)
  {
    hide Join;
    OneComponent("Foo");
    assert ".Foo" == [DOT] + "Foo" && ".Foo"[1..] == "Foo";
    var files, path := [fd], ["Foo"];
    JoinNothing(path);
    assert path[0..] == path;
    assert files[0] == fd && Known(files, "") && IsFirstFile(files, fd, "");
    assert IsPackage(files, path, 0) && Reached(files, path, 0, Found(fd, fd.messages[0]));
  }

  /** A name that does not start with a dot is an error. */
  lemma BadNames(files: seq<File>, name: string, r: Result<Found>)
    requires name == "" || name[0] != '.'
    ensures Resolves(files, name, r) <==> r == Fatal
  {
  }

  /** A nested message in a file whose option names a path and a package. */
  lemma GoTypeExample(fd: File, inner: Descriptor)
    requires fd.package == "p" && fd.goPackage == "path" + [SEMICOLON] + "pkg"
    requires fd.messages == [Descriptor("A", [inner])] && inner.name == "B"
    ensures var q := Done(Found(fd, inner));
            Resolves([fd], ".p.A.B", q) && GoTypeOf(".p.A.B", q) == Done(GoType("pkg", "A_B"))
  {
    hide Split, Join, Resolves, GoPackage, GoName, Walk;
    var files, walk, f := [fd], ["A", "B"], Found(fd, inner);
    NameExample();
    assert files[0] == fd && Known(files, "p") && IsFirstFile(files, fd, "p");
    WalkExample(fd.messages, inner);
    assert NoneLonger(files, "p", walk) by {
      forall j | 0 < j < |walk| ensures !Known(files, "p" + [DOT] + Join(walk[..j], DOT)) {
        assert |"p" + [DOT] + Join(walk[..j], DOT)| > 1;
      }
    }
    FirstIsResolved(files, walk, f);
    GoPackageParts(fd, "path", "pkg");
  }

  lemma NameExample()
    ensures [DOT] + "p" + [DOT] + Join(["A", "B"], DOT) == ".p.A.B" && DotFree(["A", "B"])
    ensures GoName(".p.A.B", "p") == "A_B"
  {
    var walk := ["A", "B"];
    assert walk[1..] == ["B"];
    assert Join(walk, DOT) == "A.B";
    var name, prefix := ".p.A.B", [DOT] + "p" + [DOT];
    assert prefix == ".p." && prefix <= name && name[3..] == "A.B";
    assert Underscored("A.B") == "A_B";
  }

  lemma WalkExample(ds: seq<Descriptor>, inner: Descriptor)
    requires ds == [Descriptor("A", [inner])] && inner.name == "B"
    ensures Walk(ds, ["A", "B"]) == Some(inner)
  {
    assert ["A", "B"][1..] == ["B"];
    assert First(ds, "A") == Some(ds[0]) && First([inner], "B") == Some(inner);
  }
}
