/** Provider IDs of networks and network interfaces (apinetlet/provider/provider.go). */
module ProviderId {
  import opened Wrappers

  const PREFIX := "ironcore-net://"

  datatype Parts = Parts(namespace: string, name: string, third: string, uid: string)

  datatype Error = InvalidId | InvalidNode

  // ---- Splitting and joining -------------------------------------------------------------------

  function FirstSlash(s: string): (i: nat)
    ensures i <= |s| && (i < |s| ==> s[i] == '/') && '/' !in s[..i]
  {
    if s == "" || s[0] == '/' then 0
    else
      var i := 1 + FirstSlash(s[1..]);
      assert s[..i] == [s[0]] + s[1..][..i - 1];
      i
  }

  /** strings.SplitN for a slash: the last of the n parts is whatever remains. */
  function SplitN(s: string, n: nat): (parts: seq<string>)
    requires n > 0
    ensures 0 < |parts| <= n
    decreases n
  {
    var i := FirstSlash(s);
    if n == 1 || i == |s| then [s] else [s[..i]] + SplitN(s[i + 1..], n - 1)
  }

  function Join(parts: seq<string>): string {
    if parts == [] then ""
    else if |parts| == 1 then parts[0]
    else parts[0] + "/" + Join(parts[1..])
  }

  function TrimPrefix(s: string): string {
    if PREFIX <= s then s[|PREFIX|..] else s
  }

  predicate SlashFree(s: string) {
    '/' !in s
  }

  lemma {:induction false} JoinUndoesSplit(s: string, n: nat)
    requires n > 0
    ensures Join(SplitN(s, n)) == s
    decreases n
  {
    var i := FirstSlash(s);
    if n > 1 && i < |s| {
      JoinUndoesSplit(s[i + 1..], n - 1);
      assert s == s[..i] + "/" + s[i + 1..];
    }
  }

  lemma {:induction false} FirstSlashIs(s: string, k: nat)
    requires k < |s| && s[k] == '/' && '/' !in s[..k]
    ensures FirstSlash(s) == k
  {
    if k > 0 {
      assert s[0] == s[..k][0] && s[1..][..k - 1] == s[..k][1..];
      FirstSlashIs(s[1..], k - 1);
    }
  }

  lemma {:induction false} SplitUndoesJoin(parts: seq<string>, n: nat)
    requires 0 < |parts| <= n && forall p | p in parts :: SlashFree(p)
    ensures SplitN(Join(parts), n) == parts
    decreases |parts|
  {
    hide FirstSlash, SplitN, Join;
    assert parts[0] in parts;
    JoinMore(parts);
    if |parts| == 1 {
      SplitOne(parts[0], n);
      assert parts == [parts[0]];
    } else {
      assert parts == [parts[0]] + parts[1..];
      SplitUndoesJoin(parts[1..], n - 1);
      SplitHead(parts[0], Join(parts[1..]), n);
    }
  }

  lemma {:induction false} NoFirstSlash(s: string)
    requires SlashFree(s)
    ensures FirstSlash(s) == |s|
  {
    if s != "" {
      NoFirstSlash(s[1..]);
    }
  }

  lemma SplitOne(p: string, n: nat)
    requires SlashFree(p) && n > 0
    ensures SplitN(p, n) == [p]
  {
    NoFirstSlash(p);
  }

  lemma JoinMore(parts: seq<string>)
    requires parts != []
    ensures Join(parts) == if |parts| == 1 then parts[0] else parts[0] + "/" + Join(parts[1..])
  {
  }

  lemma SplitHead(p: string, rest: string, n: nat)
    requires SlashFree(p) && n > 1
    ensures SplitN(p + "/" + rest, n) == [p] + SplitN(rest, n - 1)
  {
    var s := p + "/" + rest;
    assert s[|p|] == '/' && s[..|p|] == p && s[|p| + 1..] == rest;
    FirstSlashIs(s, |p|);
  }

  /** Fewer parts than allowed means that nothing was left unsplit. */
  lemma {:induction false} ShortSplitIsComplete(s: string, n: nat)
    requires n > 0 && |SplitN(s, n)| < n
    ensures forall p | p in SplitN(s, n) :: SlashFree(p)
    decreases n
  {
    var i := FirstSlash(s);
    if i < |s| {
      ShortSplitIsComplete(s[i + 1..], n - 1);
    } else {
      assert s[..i] == s;
    }
  }

  // ---- Node names ------------------------------------------------------------------------------

  predicate Alphanumeric(c: char) {
    'a' <= c <= 'z' || '0' <= c <= '9'
  }

  /** What the API machinery accepts as a DNS subdomain (RFC 1123): labels of lower-case letters,
      digits and inner dashes, separated by dots. */
  predicate IsDNSSubdomain(s: string) {
    && 0 < |s| <= 253
    && (forall i | 0 <= i < |s| :: Alphanumeric(s[i]) || ((s[i] == '-' || s[i] == '.') && 0 < i < |s| - 1))
    && (forall i | 0 < i < |s| && s[i] == '.' :: Alphanumeric(s[i - 1]) && (i + 1 < |s| ==> Alphanumeric(s[i + 1])))
  }

  function JoinDots(labels: seq<string>): string
    requires labels != []
  {
    if |labels| == 1 then labels[0] else labels[0] + "." + JoinDots(labels[1..])
  }

  /** The same without the length, which is the only condition on the whole. */
  predicate Dotted(s: string) {
    && s != ""
    && (forall i | 0 <= i < |s| :: Alphanumeric(s[i]) || ((s[i] == '-' || s[i] == '.') && 0 < i < |s| - 1))
    && (forall i | 0 < i < |s| && s[i] == '.' :: Alphanumeric(s[i - 1]) && (i + 1 < |s| ==> Alphanumeric(s[i + 1])))
  }

  predicate IsLabel(l: string) {
    && l != "" && Alphanumeric(l[0]) && Alphanumeric(l[|l| - 1])
    && forall c | c in l :: Alphanumeric(c) || c == '-'
  }

  lemma {:induction false} DottedSplits(s: string, i: nat) returns (labels: seq<string>)
    requires Dotted(s) && i <= |s| && (forall c | c in s[..i] :: c != '.')
    ensures labels != [] && (forall l | l in labels :: IsLabel(l)) && JoinDots(labels) == s
    decreases |s|, |s| - i
  {
    hide Dotted, IsLabel;
    if i == |s| {
      assert s[..i] == s;
      UndottedIsLabel(s);
      labels := [s];
    } else if s[i] != '.' {
      assert s[..i + 1] == s[..i] + [s[i]];
      labels := DottedSplits(s, i + 1);
    } else {
      DotSplits(s, i);
      var rest := DottedSplits(s[i + 1..], 0);
      labels := [s[..i]] + rest;
      assert labels[1..] == rest;
      assert s == s[..i] + "." + s[i + 1..];
    }
  }

  /** A dot has a label before it and the same kind of string after it. */
  lemma DotSplits(s: string, i: nat)
    requires Dotted(s) && i < |s| && s[i] == '.' && (forall c | c in s[..i] :: c != '.')
    ensures IsLabel(s[..i]) && Dotted(s[i + 1..])
  {
    var head, tail := s[..i], s[i + 1..];
    assert forall k | 0 <= k < |tail| :: tail[k] == s[i + 1 + k];
    assert forall k | 0 <= k < i :: head[k] == s[k] && head[k] in head;
  }

  lemma UndottedIsLabel(s: string)
    requires Dotted(s) && forall c | c in s :: c != '.'
    ensures IsLabel(s)
  {
    assert forall k | 0 <= k < |s| :: s[k] in s;
  }

  lemma {:induction false} JoinedIsDotted(labels: seq<string>)
    requires labels != [] && forall l | l in labels :: IsLabel(l)
    ensures JoinDots(labels) != "" && Dotted(JoinDots(labels)) && Alphanumeric(JoinDots(labels)[0])
  {
    hide IsLabel, Dotted, Alphanumeric;
    assert labels[0] in labels;
    LabelIsDotted(labels[0]);
    if |labels| > 1 {
      JoinedIsDotted(labels[1..]);
      LabelThenDotted(labels[0], JoinDots(labels[1..]));
    }
  }

  lemma LabelIsDotted(l: string)
    requires IsLabel(l)
    ensures l != "" && Dotted(l) && Alphanumeric(l[0])
  {
    assert forall k | 0 <= k < |l| :: l[k] in l;
  }

  lemma LabelThenDotted(head: string, tail: string)
    requires IsLabel(head) && Dotted(tail) && tail != "" && Alphanumeric(tail[0])
    ensures Dotted(head + "." + tail) && Alphanumeric((head + "." + tail)[0])
  {
    hide Alphanumeric;
    var s, n := head + "." + tail, |head|;
    assert forall k | 0 <= k < n :: s[k] == head[k] && head[k] in head;
    assert s[n] == '.' && |s| == n + 1 + |tail|;
    assert forall k | n < k < |s| :: s[k] == tail[k - n - 1];
    assert Alphanumeric(s[0]) && Alphanumeric(s[n - 1]) && Alphanumeric(s[n + 1]);
    assert !Alphanumeric('.') && !Alphanumeric('-') by { NotAlphanumeric(); }
    forall i | 0 <= i < |s| ensures Alphanumeric(s[i]) || ((s[i] == '-' || s[i] == '.') && 0 < i < |s| - 1) {
      if i > n {
        assert s[i] == tail[i - n - 1];
      }
    }
    forall i | 0 < i < |s| && s[i] == '.'
      ensures Alphanumeric(s[i - 1]) && (i + 1 < |s| ==> Alphanumeric(s[i + 1]))
    {
      if i > n {
        assert tail[i - n - 1] == '.' && i - n - 1 > 0;
        assert s[i - 1] == tail[i - n - 2];
        assert i + 1 < |s| ==> s[i + 1] == tail[i - n];
      }
    }
  }

  lemma NotAlphanumeric()
    ensures !Alphanumeric('.') && !Alphanumeric('-')
  {
  }

  lemma LabelIs(l: string)
    ensures IsLabel(l) <==>
              && l != "" && l[0] != '-' && l[|l| - 1] != '-'
              && forall c | c in l :: 'a' <= c <= 'z' || '0' <= c <= '9' || c == '-'
  {
    assert l != "" ==> l[0] in l && l[|l| - 1] in l;
  }

  lemma SubdomainIsJoined(s: string)
    ensures IsDNSSubdomain(s) <==>
              && |s| <= 253
              && exists labels: seq<string> ::
                   labels != [] && s == JoinDots(labels) && forall l | l in labels :: IsLabel(l)
  {
    hide IsLabel, Alphanumeric, JoinDots;
    if IsDNSSubdomain(s) {
      var labels := DottedSplits(s, 0);
    }
    if exists labels: seq<string> :: labels != [] && s == JoinDots(labels) && forall l | l in labels :: IsLabel(l) {
      var labels: seq<string> :| labels != [] && s == JoinDots(labels) && forall l | l in labels :: IsLabel(l);
      JoinedIsDotted(labels);
    }
  }

  /** A DNS subdomain is at most 253 characters, and labels joined by dots: letters, digits and dashes,
      with a letter or digit at both ends. */
  lemma SubdomainMeans(s: string)
    ensures IsDNSSubdomain(s) <==>
              && |s| <= 253
              && exists labels: seq<string> ::
                   && labels != [] && s == JoinDots(labels)
                   && forall l | l in labels ::
                        && l != "" && l[0] != '-' && l[|l| - 1] != '-'
                        && forall c | c in l :: 'a' <= c <= 'z' || '0' <= c <= '9' || c == '-'
  {
    hide *;
    SubdomainIsJoined(s);
    forall l ensures IsLabel(l) <==>
        && l != "" && l[0] != '-' && l[|l| - 1] != '-'
        && forall c | c in l :: 'a' <= c <= 'z' || '0' <= c <= '9' || c == '-' {
      LabelIs(l);
    }
  }

  // ---- Printing and parsing --------------------------------------------------------------------

  function Printed(p: Parts): string {
    PREFIX + Join([p.namespace, p.name, p.third, p.uid])
  }

  method GetID(namespace: string, name: string, third: string, uid: string) returns (id: string)
    ensures id == Printed(Parts(namespace, name, third, uid))
    ensures id == "ironcore-net://" + namespace + "/" + name + "/" + third + "/" + uid
  {
    var sb := "";
    sb := sb + PREFIX;
    sb := sb + namespace;
    sb := sb + "/";
    sb := sb + name;
    sb := sb + "/";
    sb := sb + third;
    sb := sb + "/";
    sb := sb + uid;
    JoinFour(Parts(namespace, name, third, uid));
    id := sb;
  }

  lemma JoinFour(p: Parts)
    ensures Join([p.namespace, p.name, p.third, p.uid]) == p.namespace + "/" + p.name + "/" + p.third + "/" + p.uid
  {
    var a, b, c := [p.namespace, p.name, p.third, p.uid], [p.name, p.third, p.uid], [p.third, p.uid];
    assert a[1..] == b && b[1..] == c && c[1..] == [p.uid];
    assert Join(c) == p.third + "/" + p.uid;
    assert Join(b) == p.name + "/" + p.third + "/" + p.uid;
  }

  /** ParseNetworkID. */
  function ParseNetwork(id: string): Result<Parts, Error> {
    var parts := SplitN(TrimPrefix(id), 5);
    if |parts| != 4 then Err(InvalidId) else Ok(Parts(parts[0], parts[1], parts[2], parts[3]))
  }

  /** ParseNetworkInterfaceID: the third component must be a node name. */
  function ParseNetworkInterface(id: string): Result<Parts, Error> {
    var r := ParseNetwork(id);
    if r.Ok? && !IsDNSSubdomain(r.value.third) then Err(InvalidNode) else r
  }

  predicate Clean(p: Parts) {
    SlashFree(p.namespace) && SlashFree(p.name) && SlashFree(p.third) && SlashFree(p.uid)
  }

  lemma TrimPrinted(p: Parts)
    ensures TrimPrefix(Printed(p)) == Join([p.namespace, p.name, p.third, p.uid])
  {
  }

  /** Printing and parsing gives the components back exactly when none of them contains a slash;
      when one does, parsing fails. */
  lemma NetworkRoundTrip(p: Parts)
    ensures ParseNetwork(Printed(p)) == Ok(p) <==> Clean(p)
    ensures !Clean(p) ==> ParseNetwork(Printed(p)) == Err(InvalidId)
  {
    hide Printed, TrimPrefix, Join, SplitN, SlashFree;
    var parts := [p.namespace, p.name, p.third, p.uid];
    var s := TrimPrefix(Printed(p));
    TrimPrinted(p);
    if Clean(p) {
      SplitUndoesJoin(parts, 5);
    }
    if |SplitN(s, 5)| == 4 {
      ShortSplitIsComplete(s, 5);
      JoinUndoesSplit(s, 5);
      FourPartsMeanClean(parts, SplitN(s, 5));
    }
  }

  function Slashes(s: string): nat {
    if s == "" then 0 else (if s[0] == '/' then 1 else 0) + Slashes(s[1..])
  }

  lemma {:induction false} SlashesAdd(a: string, b: string)
    ensures Slashes(a + b) == Slashes(a) + Slashes(b)
  {
    if a == "" {
      assert a + b == b;
    } else {
      SlashesAdd(a[1..], b);
      assert (a + b)[1..] == a[1..] + b;
    }
  }

  lemma {:induction false} NoSlashes(s: string)
    ensures SlashFree(s) <==> Slashes(s) == 0
  {
    if s != "" {
      NoSlashes(s[1..]);
      assert s == [s[0]] + s[1..];
    }
  }

  lemma JoinedSlashes(parts: seq<string>)
    requires |parts| == 4
    ensures Slashes(Join(parts)) == 3 + Slashes(parts[0]) + Slashes(parts[1]) + Slashes(parts[2]) + Slashes(parts[3])
  {
    JoinFour(Parts(parts[0], parts[1], parts[2], parts[3]));
    assert parts == [parts[0], parts[1], parts[2], parts[3]];
    assert Slashes("/") == 1;
    SlashesAdd(parts[0] + "/" + parts[1] + "/" + parts[2] + "/", parts[3]);
    SlashesAdd(parts[0] + "/" + parts[1] + "/" + parts[2], "/");
    SlashesAdd(parts[0] + "/" + parts[1] + "/", parts[2]);
    SlashesAdd(parts[0] + "/" + parts[1], "/");
    SlashesAdd(parts[0] + "/", parts[1]);
    SlashesAdd(parts[0], "/");
  }

  /** The same string cannot be four clean parts and four parts with slashes in them. */
  lemma FourPartsMeanClean(parts: seq<string>, clean: seq<string>)
    requires |parts| == |clean| == 4 && Join(parts) == Join(clean) && forall c | c in clean :: SlashFree(c)
    ensures forall c | c in parts :: SlashFree(c)
    ensures parts == clean
  {
    hide Join, SlashFree, Slashes;
    JoinedSlashes(parts);
    JoinedSlashes(clean);
    forall i | 0 <= i < 4 ensures Slashes(clean[i]) == 0 {
      assert clean[i] in clean;
      NoSlashes(clean[i]);
    }
    forall i | 0 <= i < 4 ensures SlashFree(parts[i]) {
      NoSlashes(parts[i]);
    }
    SplitUndoesJoin(parts, 4);
    SplitUndoesJoin(clean, 4);
  }

  lemma NetworkInterfaceRoundTrip(p: Parts)
    ensures ParseNetworkInterface(Printed(p)) == Ok(p) <==> Clean(p) && IsDNSSubdomain(p.third)
    ensures Clean(p) && !IsDNSSubdomain(p.third) ==> ParseNetworkInterface(Printed(p)) == Err(InvalidNode)
  {
    hide Printed, ParseNetwork, IsDNSSubdomain;
    NetworkRoundTrip(p);
  }

  /** Different clean components print differently. */
  lemma PrintingIsInjective(p: Parts, q: Parts)
    requires Clean(p) && Clean(q)
    ensures Printed(p) == Printed(q) <==> p == q
  {
    hide Printed, ParseNetwork;
    NetworkRoundTrip(p);
    NetworkRoundTrip(q);
  }

  /** What parses prints as itself, with the prefix added if it was missing. */
  lemma ReprintingIs(id: string)
    requires ParseNetwork(id).Ok?
    ensures Printed(ParseNetwork(id).value) == if PREFIX <= id then id else PREFIX + id
    ensures Clean(ParseNetwork(id).value)
  {
    hide SlashFree, Join, SplitN;
    var s := TrimPrefix(id);
    var parts := SplitN(s, 5);
    JoinUndoesSplit(s, 5);
    ShortSplitIsComplete(s, 5);
    assert parts == [parts[0], parts[1], parts[2], parts[3]];
    if PREFIX <= id {
      assert id == PREFIX + id[|PREFIX|..];
    }
  }
}
