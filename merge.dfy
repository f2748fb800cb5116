/** The self-contained rules of the merge tool: the ':'-separated list of merged file
    names, stripping a directory prefix off a path, shifting adjacency ids by a file's
    offset, compacting pixels when channels are dropped, the input compatibility check,
    the running face and mesh offsets, and the checks done before a remerge. */
module Merge {
  import opened FaceInfos
  import opened ObjReader

  // ---------------------------------------------------------------------------------
  // The merged file list

  /** t[a..b] holds no c. */
  predicate Without(t: string, c: char, a: int, b: int)
    requires 0 <= a <= b <= |t|
  {
    forall k | a <= k < b :: t[k] != c
  }

  /** The first position of c in s at or after a, or -1. */
  function FindFrom(s: string, c: char, a: nat): (i: int)
    requires a <= |s|
    ensures i == -1 || a <= i < |s|
    ensures i >= 0 ==> s[i] == c && Without(s, c, a, i)
    ensures i == -1 ==> Without(s, c, a, |s|)
    decreases |s| - a
  {
    if a == |s| then -1
    else if s[a] == c then a
    else FindFrom(s, c, a + 1)
  }

  /** strchr: the first position of c in s, or -1. */
  function Find(s: string, c: char): (i: int)
    ensures -1 <= i < |s|
    ensures i >= 0 ==> s[i] == c && Without(s, c, 0, i)
    ensures i == -1 ==> Without(s, c, 0, |s|)
  {
    FindFrom(s, c, 0)
  }

  /** The names split_names produces from s: the pieces between ':'s, where a piece after
      the last ':' is kept only when it is not empty. */
  function Split(s: string): seq<string>
    decreases |s|
  {
    if |s| == 0 then []
    else
      var i := Find(s, ':');
      if i == -1 then [s] else [s[..i]] + Split(s[i + 1..])
  }

  /** A ':' at end splits off the piece before it. */
  lemma SplitPiece(s: string, end: int)
    requires |s| > 0 && end >= 0 && end == Find(s, ':')
    ensures Split(s) == [s[..end]] + Split(s[end + 1..])
  {
  }

  /** Without a ':' what is left is the last name, unless it is empty. */
  lemma SplitLast(s: string, end: int)
    requires end == Find(s, ':') && (|s| == 0 || end < 0)
    ensures Split(s) == if |s| > 0 then [s] else []
  {
  }

  /** split_names: the names of s are appended to names0. */
  method SplitNames(str: string, names0: seq<string>) returns (names: seq<string>)
    ensures names == names0 + Split(str)
  {
    names := names0;
    var rest := str;
    var end := Find(rest, ':');
    while |rest| > 0 && end >= 0
      invariant end == Find(rest, ':')
      invariant names0 + Split(str) == names + Split(rest)
      decreases |rest|
    {
      SplitPiece(rest, end);
      names := names + [rest[..end]];
      rest := rest[end + 1..];
      end := Find(rest, ':');
    }
    SplitLast(rest, end);
    if |rest| > 0 {
      names := names + [rest];
    }
  }

  /** The names joined with ':' between consecutive ones. */
  function Join(names: seq<string>): string
    requires |names| >= 1
  {
    if |names| == 1 then names[0] else names[0] + ":" + Join(names[1..])
  }

  /** Joining one more name appends ':' and that name. */
  lemma {:induction false} JoinSnoc(names: seq<string>, n: string)
    requires |names| >= 1
    ensures Join(names + [n]) == Join(names) + ":" + n
  {
    if |names| == 1 {
      assert (names + [n])[1..] == [n];
    } else {
      assert (names + [n])[1..] == names[1..] + [n];
      JoinSnoc(names[1..], n);
    }
  }

  /** Total length of the names. */
  function Chars(names: seq<string>): nat
  {
    if |names| == 0 then 0 else Chars(names[..|names| - 1]) + |names[|names| - 1]|
  }

  /** The join in ptex_merge: the first name, then ':' and the next name for each of the
      rest; the result is exactly as long as the size reserved for it, the total of the
      name lengths plus one separator between each two. */
  method JoinNames(names: seq<string>) returns (joined: string)
    requires |names| >= 1
    ensures joined == Join(names)
    ensures |joined| == Chars(names) + |names| - 1
  {
    joined := names[0];
    var i := 1;
    assert names[..1] == [names[0]];
    while i < |names|
      invariant 1 <= i <= |names|
      invariant joined == Join(names[..i]) && |joined| == Chars(names[..i]) + i - 1
    {
      JoinSnoc(names[..i], names[i]);
      assert names[..i + 1] == names[..i] + [names[i]];
      joined := joined + ":" + names[i];
      i := i + 1;
    }
    assert names[..i] == names;
  }

  /** No ':' inside any name. */
  predicate NoColon(names: seq<string>)
  {
    forall k | 0 <= k < |names| :: Without(names[k], ':', 0, |names[k]|)
  }

  /** Round trip: splitting the joined names gives them back, as long as no name holds a
      ':' and the last one is not empty (an empty last name is dropped). */
  lemma {:induction false} SplitJoin(names: seq<string>)
    requires |names| >= 1 && NoColon(names) && |names[|names| - 1]| > 0
    ensures Split(Join(names)) == names
  {
    if |names| == 1 {
      assert Find(names[0], ':') == -1;
    } else {
      var s := Join(names);
      var n := names[0];
      assert s == n + ":" + Join(names[1..]);
      assert s[..|n|] == n && s[|n|] == ':';
      assert Without(n, ':', 0, |n|);
      assert Find(s, ':') == |n| by { FindAt(s, |n|, ':'); }
      assert s[|n| + 1..] == Join(names[1..]);
      SplitJoin(names[1..]);
    }
  }

  /** Find gives i when s[i] is the first c. */
  lemma FindAt(s: string, i: int, c: char)
    requires 0 <= i < |s| && s[i] == c && Without(s, c, 0, i)
    ensures Find(s, c) == i
  {
  }

  /** s is what comes before position i, the character there and what follows it. */
  lemma Around(s: string, i: int)
    requires 0 <= i < |s|
    ensures s == s[..i] + [s[i]] + s[i + 1..]
  {
  }

  /** Splitting at the first ':' gives the name before it and the names after it. */
  lemma SplitFirst(s: string, i: int)
    requires |s| > 0 && i == Find(s, ':') && i >= 0
    ensures Split(s) == [s[..i]] + Split(s[i + 1..])
  {
  }

  /** What comes before a position holds no c when s holds none there. */
  lemma WithoutPrefix(s: string, c: char, i: int)
    requires 0 <= i <= |s| && Without(s, c, 0, i)
    ensures Without(s[..i], c, 0, i)
  {
    forall k | 0 <= k < i
      ensures s[..i][k] != c
    {
      assert s[..i][k] == s[k];
    }
  }

  /** A name with no ':' put in front of names with none. */
  lemma ConsNoColon(n: string, tail: seq<string>)
    requires Without(n, ':', 0, |n|) && NoColon(tail)
    ensures NoColon([n] + tail)
  {
    var names := [n] + tail;
    forall k | 0 <= k < |names|
      ensures Without(names[k], ':', 0, |names[k]|)
    {
      if k > 0 {
        assert names[k] == tail[k - 1];
      }
    }
  }

  /** A list with no ':' is one name, which holds none. */
  lemma NoColonLast(s: string)
    requires |s| > 0 && Find(s, ':') == -1
    ensures NoColon(Split(s))
  {
    assert Split(s) == [s];
  }

  /** The name before the first ':' holds none, so the names are free of ':' when those
      after it are. */
  lemma NoColonStep(s: string, i: int)
    requires |s| > 0 && Find(s, ':') == i && i >= 0 && NoColon(Split(s[i + 1..]))
    ensures NoColon(Split(s))
  {
    SplitFirst(s, i);
    WithoutPrefix(s, ':', i);
    ConsNoColon(s[..i], Split(s[i + 1..]));
  }

  /** Names split from s hold no ':'. */
  lemma {:induction false} SplitNoColon(s: string)
    ensures NoColon(Split(s))
    decreases |s|
  {
    if |s| > 0 {
      var i := Find(s, ':');
      if i >= 0 {
        SplitNoColon(s[i + 1..]);
        NoColonStep(s, i);
      } else {
        NoColonLast(s);
      }
    }
  }

  /** The other way round: a non-empty list not ending in ':' is the join of its names,
      none of which holds a ':'. */
  lemma {:induction false} JoinSplit(s: string)
    requires |s| > 0 && s[|s| - 1] != ':'
    ensures |Split(s)| >= 1 && NoColon(Split(s)) && Join(Split(s)) == s
    decreases |s|
  {
    SplitNoColon(s);
    var i := Find(s, ':');
    if i >= 0 {
      var rest := s[i + 1..];
      assert rest[|rest| - 1] == s[|s| - 1];
      JoinSplit(rest);
      SplitFirst(s, i);
      var names := [s[..i]] + Split(rest);
      assert names[1..] == Split(rest);
      Around(s, i);
      assert Join(names) == s[..i] + ":" + Join(Split(rest));
    } else {
      assert Split(s) == [s];
    }
  }

  // ---------------------------------------------------------------------------------
  // strip_prefix

  /** strip_prefix over the components of two paths: when prefix's components begin path,
      the components after them; otherwise path as it is. */
  method StripPrefix(path: seq<string>, prefix: seq<string>) returns (res: seq<string>)
    ensures |prefix| <= |path| && path[..|prefix|] == prefix ==> prefix + res == path
    ensures !(|prefix| <= |path| && path[..|prefix|] == prefix) ==> res == path
  {
    var i := 0;
    while i < |path| && i < |prefix|
      invariant 0 <= i <= |path| && i <= |prefix|
      invariant path[..i] == prefix[..i]
    {
      if path[i] == prefix[i] {
        assert path[..i + 1] == prefix[..i + 1] by {
          assert path[..i + 1] == path[..i] + [path[i]] && prefix[..i + 1] == prefix[..i] + [prefix[i]];
        }
        i := i + 1;
      } else {
        break;
      }
    }
    if i != |prefix| {
      return path;
    }
    res := [];
    var k := i;
    while k < |path|
      invariant i <= k <= |path|
      invariant res == path[i..k]
    {
      res := res + [path[k]];
      k := k + 1;
    }
    assert prefix + path[i..] == path;
  }

  // ---------------------------------------------------------------------------------
  // Shifting adjacency ids into the merged file

  /** An adjacent-face id moved to the merged file: -1 stays -1, any other id is offset. */
  function ShiftId(a: int, offset: int): int
  {
    if a == -1 then -1 else a + offset
  }

  /** A record of an input file as written into the merged file at the given offset: the
      adjacent faces shifted, adjacent edges and subface flag untouched. */
  function ShiftFace(info: FaceInfo, offset: int): (r: FaceInfo)
    requires Sized(info)
    ensures Sized(r) && r.adjedges == info.adjedges && r.isSubface == info.isSubface
  {
    var a := info.adjfaces;
    info.(adjfaces := [ShiftId(a[0], offset), ShiftId(a[1], offset), ShiftId(a[2], offset), ShiftId(a[3], offset)])
  }

  /** Every adjacent-face id is -1 or a face index. */
  predicate IdsValid(info: FaceInfo)
  {
    forall f | 0 <= f < |info.adjfaces| :: info.adjfaces[f] >= -1
  }

  /** With face indices and offsets not negative, shifting keeps boundaries and only
      boundaries at -1, shifting by 0 changes nothing, and two shifts add up. */
  lemma ShiftFaceProperties(info: FaceInfo, a: int, b: int)
    requires Sized(info) && IdsValid(info) && a >= 0 && b >= 0
    ensures IdsValid(ShiftFace(info, a))
    ensures forall f | 0 <= f < 4 :: ShiftFace(info, a).adjfaces[f] == -1 <==> info.adjfaces[f] == -1
    ensures ShiftFace(info, 0) == info
    ensures ShiftFace(ShiftFace(info, a), b) == ShiftFace(info, a + b)
  {
    assert info.adjfaces == [info.adjfaces[0], info.adjfaces[1], info.adjfaces[2], info.adjfaces[3]];
  }

  /** A file written at an offset matches its input under ptex_topology_match with that
      offset on the input side. */
  lemma ShiftedMatches(n: int, nfaces: seq<FaceInfo>, mfaces: seq<FaceInfo>, offset: int)
    requires 0 <= n <= |nfaces| && n <= |mfaces|
    requires forall i | 0 <= i < n :: Sized(nfaces[i]) && mfaces[i] == ShiftFace(nfaces[i], offset)
    ensures (forall i | 0 <= i < n :: Sized(mfaces[i])) && Matches(n, nfaces, mfaces, offset, 0)
  {
    forall i | 0 <= i < n
      ensures FaceMatch(nfaces[i], mfaces[i], offset, 0)
    {
      assert Sized(mfaces[i]);
    }
  }

  // ---------------------------------------------------------------------------------
  // Dropping channels in place

  newtype byte = x: int | 0 <= x < 256

  /** The offset of pixel k in a buffer of w-byte pixels, k * w, built up by addition. */
  function Off(k: nat, w: int): int
  {
    if k == 0 then 0 else Off(k - 1, w) + w
  }

  lemma {:induction false} OffIsProduct(k: nat, w: int)
    ensures Off(k, w) == k * w
  {
    if k > 0 {
      OffIsProduct(k - 1, w);
      assert (k - 1) * w + w == k * w;
    }
  }

  lemma {:induction false} OffMono(j: nat, k: nat, w: int)
    requires j <= k && 0 <= w
    ensures 0 <= Off(j, w) <= Off(k, w)
    decreases k
  {
    if j < k {
      OffMono(j, k - 1, w);
    } else if j > 0 {
      OffMono(j - 1, j - 1, w);
    }
  }

  lemma {:induction false} OffStrict(j: nat, k: nat, w: int)
    requires j < k && 0 < w
    ensures Off(j, w) < Off(k, w)
    decreases k
  {
    if j < k - 1 {
      OffStrict(j, k - 1, w);
    }
  }

  lemma {:induction false} OffWider(j: nat, s: int, d: int)
    requires s <= d
    ensures Off(j, s) <= Off(j, d)
  {
    if j > 0 {
      OffWider(j - 1, s, d);
    }
  }

  /** Pixel j of a holds the first s bytes of d-byte pixel j of o. */
  predicate PixelAt(a: seq<byte>, o: seq<byte>, j: nat, s: int, d: int)
  {
    0 <= s && 0 <= Off(j, s) && Off(j, s) + s <= |a| && 0 <= Off(j, d) && Off(j, d) + s <= |o| &&
    a[Off(j, s)..Off(j, s) + s] == o[Off(j, d)..Off(j, d) + s]
  }

  /** The first k pixels of a hold the first s bytes of the first k d-byte pixels of o. */
  predicate Compacted(a: seq<byte>, o: seq<byte>, k: nat, s: int, d: int)
  {
    forall j: nat | j < k :: PixelAt(a, o, j, s, d)
  }

  /** a and o agree from position from on. */
  predicate SameFrom(a: seq<byte>, o: seq<byte>, from: int)
  {
    |a| == |o| && forall i | from <= i < |a| :: 0 <= i ==> a[i] == o[i]
  }

  /** memmove: the len bytes at src are copied to dst, as if through a separate buffer, and
      nothing else changes. */
  method MemMove(a: array<byte>, dst: int, src: int, len: int)
    requires 0 <= len && 0 <= dst && dst + len <= a.Length && 0 <= src && src + len <= a.Length
    modifies a
    ensures a[..] == old(a[..dst]) + old(a[src..src + len]) + old(a[dst + len..])
  {
    var buf := a[src..src + len];
    forall i | 0 <= i < len {
      a[dst + i] := buf[i];
    }
    assert a[..] == old(a[..dst]) + buf + old(a[dst + len..]);
  }

  /** Moving pixel k into place extends the compacted part by one pixel. */
  lemma CompactStep(a: seq<byte>, o: seq<byte>, a': seq<byte>, k: nat, s: int, d: int, n: nat, dst: int, src: int)
    requires 1 <= k < n && 0 < s < d && Off(n, d) <= |o| && dst == Off(k, s) && src == Off(k, d)
    requires Compacted(a, o, k, s, d) && SameFrom(a, o, dst)
    requires 0 <= dst <= src && src + s <= |a| && a' == a[..dst] + a[src..src + s] + a[dst + s..]
    ensures Compacted(a', o, k + 1, s, d) && SameFrom(a', o, Off(k + 1, s))
  {
    forall j: nat | j < k + 1
      ensures PixelAt(a', o, j, s, d)
    {
      if j < k {
        OffMono(j + 1, k, s);
        PixelKept(a, o, a', j, s, d, dst);
      } else {
        OffMono(k + 1, n, d);
        assert a'[dst..dst + s] == a[src..src + s];
        assert a[src..src + s] == o[src..src + s];
      }
    }
  }

  /** A pixel below dst is untouched when bytes are moved to dst. */
  lemma PixelKept(a: seq<byte>, o: seq<byte>, a': seq<byte>, j: nat, s: int, d: int, dst: int)
    requires PixelAt(a, o, j, s, d) && Off(j, s) + s <= dst <= |a| == |a'| && a'[..dst] == a[..dst]
    ensures PixelAt(a', o, j, s, d)
  {
    assert a'[Off(j, s)..Off(j, s) + s] == a'[..dst][Off(j, s)..Off(j, s) + s];
    assert a[Off(j, s)..Off(j, s) + s] == a[..dst][Off(j, s)..Off(j, s) + s];
  }

  /** With nothing kept per pixel, every pixel is trivially compacted. */
  lemma CompactNothing(a: seq<byte>, o: seq<byte>, n: nat, d: int)
    requires 0 < d && Off(n, d) <= |o| && |a| == |o|
    ensures Compacted(a, o, n, 0, d)
  {
    forall j: nat | j < n
      ensures PixelAt(a, o, j, 0, d)
    {
      OffIsProduct(j, 0);
      OffMono(j, n, d);
    }
  }

  /** One turn of the strip loop: the memmove of pixel k into place. */
  method MovePixel(data: array<byte>, ghost o: seq<byte>, ghost k: nat, s: int, d: int, ghost n: nat, dst: int, src: int)
    requires 1 <= k < n && 0 < s < d && Off(n, d) <= data.Length && |o| == data.Length
    requires dst == Off(k, s) && src == Off(k, d)
    requires Compacted(data[..], o, k, s, d) && SameFrom(data[..], o, dst)
    modifies data
    ensures Compacted(data[..], o, k + 1, s, d) && SameFrom(data[..], o, Off(k + 1, s))
  {
    OffMono(k, n, s);
    OffWider(k, s, d);
    OffMono(k + 1, n, d);
    ghost var a := data[..];
    MemMove(data, dst, src, s);
    CompactStep(a, o, data[..], k, s, d, n, dst, src);
  }

  /** The channel strip in append_ptexture: n pixels of d bytes each are compacted to s
      bytes each by keeping the first s bytes of every pixel; pixel 0 already sits in place,
      and the bytes past the n compacted pixels are left alone. */
  method StripChannels(data: array<byte>, s: int, d: int, n: nat)
    requires 0 <= s < d && (n >= 1 || s == 0) && n * d <= data.Length
    modifies data
    ensures Compacted(data[..], old(data[..]), n, s, d)
    ensures SameFrom(data[..], old(data[..]), n * s)
  {
    ghost var o := data[..];
    OffIsProduct(n, d);
    OffIsProduct(n, s);
    var dst := s;
    var src := d;
    var end := s * n;
    ghost var k: nat := 1;
    if s == 0 {
      CompactNothing(data[..], o, n, d);
    } else {
      OffMono(1, n, d);
    }
    while dst != end
      invariant 1 <= k && dst == Off(k, s) && src == Off(k, d) && (s > 0 ==> k <= n)
      invariant s == 0 ==> Compacted(data[..], o, n, s, d)
      invariant s > 0 ==> Compacted(data[..], o, k, s, d)
      invariant SameFrom(data[..], o, dst)
      decreases n - k
    {
      if s == 0 {
        OffIsProduct(k, s);
        assert false;
      }
      MovePixel(data, o, k, s, d, n, dst, src);
      dst := dst + s;
      src := src + d;
      k := k + 1;
    }
    if s > 0 && k < n {
      OffStrict(k, n, s);
    }
  }

  // ---------------------------------------------------------------------------------
  // Inputs: the compatibility check and the running offsets

  datatype Option<T> = None | Some(value: T)

  datatype MeshType = Triangle | Quad

  /** What the merge needs to know of the output: mesh type, channel count, alpha channel
      (-1 for any) and whether meshes are merged. */
  datatype Options = Options(meshType: MeshType, numChannels: int, alphaChannel: int, mergeMesh: bool)

  /** The mesh metadata of a ptex file: face vertex counts, face vertex indices and vertex
      positions (three coordinates per vertex). */
  datatype MeshMeta = MeshMeta(nverts: seq<int>, verts: seq<int>, pos: seq<real>)

  /** An opened input file, as far as the merge reads it; meshMeta is None when any of the
      three mesh metadata entries is missing. */
  datatype Texture = Texture(path: string, meshType: MeshType, numChannels: int, alphaChannel: int,
                             numFaces: int, meshMeta: Option<MeshMeta>)

  datatype Check = Pass | Fail(msg: string)

  /** The status code check_ptx returns. */
  function CheckCode(c: Check): int
  {
    if c.Pass? then 0 else -1
  }

  /** The file can be merged into output described by opts: same mesh type, at least as
      many channels, and the same alpha channel unless any is allowed. */
  predicate Compatible(opts: Options, tex: Texture)
  {
    tex.meshType == opts.meshType && tex.numChannels >= opts.numChannels &&
    (opts.alphaChannel == -1 || tex.alphaChannel == opts.alphaChannel)
  }

  /** check_ptx: passes exactly the compatible files; otherwise the message of the first
      failed test, naming the file. */
  function CheckPtx(opts: Options, tex: Texture): (r: Check)
    ensures r.Pass? <==> Compatible(opts, tex)
    ensures r.Fail? ==> |r.msg| >= |tex.path| && r.msg[|r.msg| - |tex.path|..] == tex.path
  {
    if tex.meshType != opts.meshType then Fail("Mesh type does not match: " + tex.path)
    else if tex.numChannels < opts.numChannels then Fail("Not enough channels in file: " + tex.path)
    else if tex.alphaChannel != opts.alphaChannel && opts.alphaChannel != -1 then Fail("Alpha channel does not match: " + tex.path)
    else Pass
  }

  /** The options ptex_merge takes from the first file. */
  function OptionsOf(tex: Texture): Options
  {
    Options(tex.meshType, tex.numChannels, tex.alphaChannel, true)
  }

  /** The first file always passes the check against the options taken from it, and a file
      that passes keeps passing when fewer channels are asked for or any alpha is allowed. */
  lemma CheckPtxProperties(tex: Texture, opts: Options, fewer: int)
    ensures CheckPtx(OptionsOf(tex), tex).Pass?
    ensures CheckPtx(opts, tex).Pass? && fewer <= opts.numChannels ==>
      CheckPtx(opts.(numChannels := fewer), tex).Pass? && CheckPtx(opts.(alphaChannel := -1), tex).Pass?
  {
  }

  /** Mesh metadata that is consistent: positions come in threes, the vertex counts add up
      to the number of vertex indices, and every index names a position. */
  predicate MeshOk(nverts: seq<int>, verts: seq<int>, pos: seq<real>)
  {
    |pos| % 3 == 0 && Total(nverts) == |verts| && forall i | 0 <= i < |verts| :: 0 <= verts[i] < |pos| / 3
  }

  function Total(xs: seq<int>): int
  {
    if |xs| == 0 then 0 else Total(xs[..|xs| - 1]) + xs[|xs| - 1]
  }

  lemma {:induction false} TotalAppend(xs: seq<int>, ys: seq<int>)
    ensures Total(xs + ys) == Total(xs) + Total(ys)
    decreases |ys|
  {
    if |ys| == 0 {
      assert xs + ys == xs;
    } else {
      assert (xs + ys)[..|xs + ys| - 1] == xs + ys[..|ys| - 1];
      TotalAppend(xs, ys[..|ys| - 1]);
    }
  }

  /** The vertex indices of an appended mesh, moved past the vertices already there. */
  function Shifted(vs: seq<int>, offset: int): (r: seq<int>)
    ensures |r| == |vs| && forall i | 0 <= i < |vs| :: r[i] == vs[i] + offset
  {
    seq(|vs|, i requires 0 <= i < |vs| => vs[i] + offset)
  }

  /** Appending a consistent mesh to a consistent mesh, with its indices shifted by the
      number of vertices before it, gives a consistent mesh. */
  lemma AppendedMeshOk(nverts0: seq<int>, verts0: seq<int>, pos0: seq<real>, m: MeshMeta)
    requires MeshOk(nverts0, verts0, pos0) && MeshOk(m.nverts, m.verts, m.pos)
    ensures MeshOk(nverts0 + m.nverts, verts0 + Shifted(m.verts, |pos0| / 3), pos0 + m.pos)
  {
    TotalAppend(nverts0, m.nverts);
    var vs := verts0 + Shifted(m.verts, |pos0| / 3);
    assert (|pos0| + |m.pos|) / 3 == |pos0| / 3 + |m.pos| / 3;
    forall i | 0 <= i < |vs|
      ensures 0 <= vs[i] < |pos0 + m.pos| / 3
    {
      if i >= |verts0| {
        assert vs[i] == m.verts[i - |verts0|] + |pos0| / 3;
      }
    }
  }

  /** The face vertex counts of a file's mesh ([] when it has none). */
  function MeshNverts(tex: Texture): seq<int>
  {
    if tex.meshMeta.None? then [] else tex.meshMeta.value.nverts
  }

  /** The number of mesh faces a file's metadata holds (0 when it has none). */
  function MeshFaces(tex: Texture): int
  {
    if tex.meshMeta.None? then 0 else |tex.meshMeta.value.nverts|
  }

  /** append_mesh: a file with all three mesh entries has its faces and positions appended
      and its vertex indices shifted past the positions already there; a file missing any
      of them changes nothing.  The result is the number of faces appended. */
  method AppendMesh(mesh: ObjMesh, tex: Texture) returns (faceCount: int)
    modifies mesh
    ensures faceCount == MeshFaces(tex)
    ensures tex.meshMeta.None? ==> mesh.nverts == old(mesh.nverts) && mesh.verts == old(mesh.verts) && mesh.pos == old(mesh.pos)
    ensures tex.meshMeta.Some? ==>
      mesh.nverts == old(mesh.nverts) + tex.meshMeta.value.nverts &&
      mesh.verts == old(mesh.verts) + Shifted(tex.meshMeta.value.verts, |old(mesh.pos)| / 3) &&
      mesh.pos == old(mesh.pos) + tex.meshMeta.value.pos
  {
    if tex.meshMeta.None? {
      return 0;
    }
    var m := tex.meshMeta.value;
    mesh.nverts := mesh.nverts + m.nverts;
    var offset := |mesh.pos| / 3;
    var i := 0;
    ghost var verts0 := mesh.verts;
    while i < |m.verts|
      invariant 0 <= i <= |m.verts| && mesh.verts == verts0 + Shifted(m.verts[..i], offset)
      invariant mesh.nverts == old(mesh.nverts) + m.nverts && mesh.pos == old(mesh.pos)
    {
      assert Shifted(m.verts[..i + 1], offset) == Shifted(m.verts[..i], offset) + [m.verts[i] + offset];
      mesh.verts := mesh.verts + [m.verts[i] + offset];
      i := i + 1;
    }
    assert m.verts[..i] == m.verts;
    mesh.pos := mesh.pos + m.pos;
    return |m.nverts|;
  }

  /** The state of a merge while its inputs are read. */
  class InputInfo {
    var options: Options
    var numFaces: int
    var mergeMesh: bool
    const mesh: ObjMesh
    var offsets: seq<int>
    var meshOffsets: seq<int>

    constructor (opts: Options)
      ensures options == opts && numFaces == 0 && mergeMesh && offsets == [] && meshOffsets == []
      ensures fresh(mesh) && mesh.pos == [] && mesh.nverts == [] && mesh.verts == []
    {
      options := opts;
      numFaces := 0;
      mergeMesh := true;
      mesh := new ObjMesh();
      offsets, meshOffsets := [], [];
    }

    /** add: the offsets of one more input are recorded. */
    method Add(offset: int, meshOffset: int)
      modifies this
      ensures offsets == old(offsets) + [offset] && meshOffsets == old(meshOffsets) + [meshOffset]
      ensures options == old(options) && numFaces == old(numFaces) && mergeMesh == old(mergeMesh)
    {
      offsets := offsets + [offset];
      meshOffsets := meshOffsets + [meshOffset];
    }

    /** append_input as written: a file that did not open or fails check_ptx is refused;
        otherwise its mesh is appended while meshes are merged, and it is placed at the
        faces counted so far.  The flag saying whether the mesh was appended is stored in
        options.mergeMesh, which nothing reads, so mergeMesh itself never changes. */
    method AppendInputAsWritten(input: Option<Texture>) returns (code: int)
      modifies this, mesh
      ensures code == 0 <==> input.Some? && CheckPtx(old(options), input.value).Pass?
      ensures code != 0 ==>
        code == -1 && offsets == old(offsets) && numFaces == old(numFaces) &&
        meshOffsets == old(meshOffsets) && mesh.nverts == old(mesh.nverts) &&
        mesh.verts == old(mesh.verts) && mesh.pos == old(mesh.pos)
      ensures mergeMesh == old(mergeMesh)
      ensures code == 0 ==>
        offsets == old(offsets) + [old(numFaces)] && numFaces == old(numFaces) + input.value.numFaces &&
        meshOffsets == old(meshOffsets) + [if old(mergeMesh) then |old(mesh.nverts)| else 0] &&
        (old(mergeMesh) ==> mesh.nverts == old(mesh.nverts) + MeshNverts(input.value))
      ensures code == 0 && old(mergeMesh) && input.value.meshMeta.Some? ==>
        mesh.verts == old(mesh.verts) + Shifted(input.value.meshMeta.value.verts, |old(mesh.pos)| / 3) &&
        mesh.pos == old(mesh.pos) + input.value.meshMeta.value.pos
      ensures code == 0 && (!old(mergeMesh) || input.value.meshMeta.None?) ==>
        mesh.nverts == old(mesh.nverts) && mesh.verts == old(mesh.verts) && mesh.pos == old(mesh.pos)
      ensures code == 0 && old(mergeMesh) ==> options == old(options).(mergeMesh := MeshFaces(input.value) > 0)
      ensures code != 0 || !old(mergeMesh) ==> options == old(options)
    {
      if input.None? {
        return -1;
      }
      var tex := input.value;
      if CheckCode(CheckPtx(options, tex)) != 0 {
        return -1;
      }
      var meshOffset := 0;
      if mergeMesh {
        meshOffset := |mesh.nverts|;
        var nfaces := AppendMesh(mesh, tex);
        options := options.(mergeMesh := nfaces > 0);
      }
      var nf := tex.numFaces;
      Add(numFaces, meshOffset);
      numFaces := numFaces + nf;
      return 0;
    }

    /** append_input with the flag stored where it is read: once a file has no mesh
        metadata, meshes stop being merged. */
    method AppendInput(input: Option<Texture>) returns (code: int)
      modifies this, mesh
      ensures code == 0 <==> input.Some? && CheckPtx(old(options), input.value).Pass?
      ensures code != 0 ==>
        code == -1 && offsets == old(offsets) && numFaces == old(numFaces) && meshOffsets == old(meshOffsets) &&
        mergeMesh == old(mergeMesh) && mesh.nverts == old(mesh.nverts) &&
        mesh.verts == old(mesh.verts) && mesh.pos == old(mesh.pos)
      ensures code == 0 ==>
        offsets == old(offsets) + [old(numFaces)] && numFaces == old(numFaces) + input.value.numFaces &&
        meshOffsets == old(meshOffsets) + [if old(mergeMesh) then |old(mesh.nverts)| else 0] &&
        mergeMesh == (old(mergeMesh) && MeshFaces(input.value) > 0)
      ensures code == 0 && old(mergeMesh) && input.value.meshMeta.Some? ==>
        mesh.nverts == old(mesh.nverts) + input.value.meshMeta.value.nverts &&
        mesh.verts == old(mesh.verts) + Shifted(input.value.meshMeta.value.verts, |old(mesh.pos)| / 3) &&
        mesh.pos == old(mesh.pos) + input.value.meshMeta.value.pos
      ensures code == 0 && (!old(mergeMesh) || input.value.meshMeta.None?) ==>
        mesh.nverts == old(mesh.nverts) && mesh.verts == old(mesh.verts) && mesh.pos == old(mesh.pos)
      ensures options == old(options)
    {
      if input.None? {
        return -1;
      }
      var tex := input.value;
      if CheckCode(CheckPtx(options, tex)) != 0 {
        return -1;
      }
      var meshOffset := 0;
      if mergeMesh {
        meshOffset := |mesh.nverts|;
        var nfaces := AppendMesh(mesh, tex);
        mergeMesh := nfaces > 0;
      }
      var nf := tex.numFaces;
      Add(numFaces, meshOffset);
      numFaces := numFaces + nf;
      return 0;
    }
  }

  /** The face counts of the inputs. */
  function FaceCounts(texs: seq<Texture>): (c: seq<int>)
    ensures |c| == |texs| && forall i | 0 <= i < |texs| :: c[i] == texs[i].numFaces
  {
    seq(|texs|, i requires 0 <= i < |texs| => texs[i].numFaces)
  }

  /** The offset of each input: the faces of the inputs before it. */
  function RunningOffsets(counts: seq<int>): (r: seq<int>)
    ensures |r| == |counts| && forall i | 0 <= i < |counts| :: r[i] == Total(counts[..i])
  {
    seq(|counts|, i requires 0 <= i < |counts| => Total(counts[..i]))
  }

  lemma RunningSnoc(c: seq<int>, x: int)
    ensures RunningOffsets(c + [x]) == RunningOffsets(c) + [Total(c)]
  {
    var r := RunningOffsets(c + [x]);
    forall k | 0 <= k < |c|
      ensures r[k] == RunningOffsets(c)[k]
    {
      assert (c + [x])[..k] == c[..k];
    }
    assert (c + [x])[..|c|] == c;
  }

  /** All inputs opened. */
  function Opened(inputs: seq<Option<Texture>>): (texs: seq<Texture>)
    requires forall i | 0 <= i < |inputs| :: inputs[i].Some?
    ensures |texs| == |inputs| && forall i | 0 <= i < |inputs| :: texs[i] == inputs[i].value
  {
    seq(|inputs|, i requires 0 <= i < |inputs| && inputs[i].Some? => inputs[i].value)
  }

  /** The face vertex counts of the inputs' meshes, one after another. */
  function AllNverts(texs: seq<Texture>): seq<int>
    requires forall i | 0 <= i < |texs| :: texs[i].meshMeta.Some?
  {
    if |texs| == 0 then [] else AllNverts(texs[..|texs| - 1]) + texs[|texs| - 1].meshMeta.value.nverts
  }

  /** The merge state after reading the files texs: each sits at the faces before it,
      the face count is the total, the merged-mesh flag is set exactly when every file had
      a mesh, and then the merged mesh holds all of their faces. */
  predicate Accumulated(texs: seq<Texture>, offsets: seq<int>, numFaces: int, mergeMesh: bool, nverts: seq<int>)
  {
    offsets == RunningOffsets(FaceCounts(texs)) && numFaces == Total(FaceCounts(texs)) &&
    (mergeMesh <==> forall k | 0 <= k < |texs| :: MeshFaces(texs[k]) > 0) &&
    (mergeMesh ==> nverts == AllNverts(texs))
  }

  /** Reading one more file as AppendInput does keeps the merge state accumulated. */
  lemma AccumulatedStep(texs: seq<Texture>, tex: Texture, offsets: seq<int>, numFaces: int, mergeMesh: bool, nverts: seq<int>,
                        offsets': seq<int>, numFaces': int, mergeMesh': bool, nverts': seq<int>)
    requires Accumulated(texs, offsets, numFaces, mergeMesh, nverts)
    requires offsets' == offsets + [numFaces] && numFaces' == numFaces + tex.numFaces
    requires mergeMesh' == (mergeMesh && MeshFaces(tex) > 0)
    requires mergeMesh && tex.meshMeta.Some? ==> nverts' == nverts + tex.meshMeta.value.nverts
    ensures Accumulated(texs + [tex], offsets', numFaces', mergeMesh', nverts')
  {
    var texs' := texs + [tex];
    assert texs'[..|texs|] == texs;
    assert FaceCounts(texs')[..|texs|] == FaceCounts(texs);
    assert FaceCounts(texs') == FaceCounts(texs) + [tex.numFaces];
    RunningSnoc(FaceCounts(texs), tex.numFaces);
    if mergeMesh' {
      assert forall k | 0 <= k < |texs'| :: MeshFaces(texs'[k]) > 0 by {
        forall k | 0 <= k < |texs'|
          ensures MeshFaces(texs'[k]) > 0
        {
          if k < |texs| {
            assert texs'[k] == texs[k];
          }
        }
      }
    }
  }

  /** The input loop of ptex_merge on a fresh merge state: every input must open and pass
      the check; then input i sits at the total face count of the inputs before it, the
      face count is the total, and while the merged-mesh flag is still set every input has
      had its mesh appended, so the merged mesh covers all of them. */
  method AppendInputs(info: InputInfo, inputs: seq<Option<Texture>>) returns (code: int)
    requires info.numFaces == 0 && info.mergeMesh && info.offsets == [] && info.mesh.nverts == []
    modifies info, info.mesh
    ensures code == 0 <==> forall i | 0 <= i < |inputs| :: inputs[i].Some? && CheckPtx(old(info.options), inputs[i].value).Pass?
    ensures code == 0 ==>
      Accumulated(Opened(inputs), info.offsets, info.numFaces, info.mergeMesh, info.mesh.nverts)
  {
    ghost var opts := info.options;
    ghost var texs: seq<Texture> := [];
    var i := 0;
    while i < |inputs|
      invariant 0 <= i <= |inputs| && info.options == opts && |texs| == i
      invariant forall k | 0 <= k < i :: inputs[k].Some? && texs[k] == inputs[k].value && Compatible(opts, texs[k])
      invariant Accumulated(texs, info.offsets, info.numFaces, info.mergeMesh, info.mesh.nverts)
    {
      ghost var offsets, numFaces, mergeMesh, nverts := info.offsets, info.numFaces, info.mergeMesh, info.mesh.nverts;
      var r := info.AppendInput(inputs[i]);
      if r != 0 {
        assert !(inputs[i].Some? && Compatible(opts, inputs[i].value));
        return -1;
      }
      AccumulatedStep(texs, inputs[i].value, offsets, numFaces, mergeMesh, nverts,
                      info.offsets, info.numFaces, info.mergeMesh, info.mesh.nverts);
      texs := texs + [inputs[i].value];
      i := i + 1;
    }
    assert texs == Opened(inputs);
    return 0;
  }

  /** As written, a first file without mesh metadata followed by one with a mesh still
      leaves the merged-mesh flag set, so a mesh of 3 faces is kept for a texture of
      5 faces; with the corrected flag the same two files clear it and no mesh is kept. */
  method MeshFlagAsWrittenMismatch() returns (flag: bool, meshFaces: int, textureFaces: int, correctedFlag: bool)
    ensures flag && meshFaces == 3 && textureFaces == 5 && !correctedFlag
  {
    var t1 := Texture("a", Quad, 1, -1, 2, None);
    var t2 := Texture("b", Quad, 1, -1, 3, Some(MeshMeta([4, 4, 4], [0, 1, 2, 3, 0, 1, 2, 3, 0, 1, 2, 3], [0.0, 0.0, 0.0, 1.0, 0.0, 0.0, 1.0, 1.0, 0.0, 0.0, 1.0, 0.0])));
    var opts := OptionsOf(t1);
    var info := new InputInfo(opts);
    var c1 := info.AppendInputAsWritten(Some(t1));
    var c2 := info.AppendInputAsWritten(Some(t2));
    assert c1 == 0 && c2 == 0;
    flag, meshFaces, textureFaces := info.mergeMesh, |info.mesh.nverts|, info.numFaces;
    var fixedInfo := new InputInfo(opts);
    c1 := fixedInfo.AppendInput(Some(t1));
    c2 := fixedInfo.AppendInput(Some(t2));
    assert c1 == 0 && c2 == 0;
    correctedFlag := fixedInfo.mergeMesh;
  }

  /** With the corrected flag, a mesh is written only when every file has one, and then,
      for files whose mesh describes their faces, it has exactly one entry per face of the
      merged texture. */
  lemma {:induction false} MergedMeshCoversFaces(texs: seq<Texture>)
    requires forall i | 0 <= i < |texs| :: texs[i].meshMeta.Some? && |texs[i].meshMeta.value.nverts| == texs[i].numFaces
    ensures |AllNverts(texs)| == Total(FaceCounts(texs))
    decreases |texs|
  {
    if |texs| > 0 {
      var n := |texs| - 1;
      MergedMeshCoversFaces(texs[..n]);
      assert FaceCounts(texs)[..n] == FaceCounts(texs[..n]);
    }
  }

  // ---------------------------------------------------------------------------------
  // Remerging: which inputs of a merged file are newer and still fit

  /** The last write times of the files in the search directory (a file whose time cannot be
      read is absent); a file is newer when its time is later than the merged file's. */
  predicate Newer(times: map<string, int>, mergedTime: int, name: string)
  {
    name in times && times[name] > mergedTime
  }

  /** Input i of a merged file of numFaces faces, with the recorded offsets, has room for
      nf faces: up to the next input's offset (when it is not the last) and up to the end. */
  predicate Fits(offsets: seq<int>, i: int, numFaces: int, nf: int)
    requires 0 <= i < |offsets|
  {
    (i == |offsets| - 1 || offsets[i + 1] - offsets[i] >= nf) && numFaces - offsets[i] >= nf
  }

  /** The options a remerge takes from the merged file. */
  function RemergeOptions(prev: Options, merged: Texture): Options
  {
    prev.(meshType := merged.meshType, numChannels := merged.numChannels, alphaChannel := merged.alphaChannel)
  }

  /** Input i may be remerged: it is not newer than the merged file, or it opens, passes
      the check and fits its slot. */
  predicate Usable(opts: Options, merged: Texture, mergedTime: int, offsets: seq<int>, names: seq<string>,
                   times: map<string, int>, files: map<string, Texture>, i: int)
    requires 0 <= i < |names| == |offsets|
  {
    Newer(times, mergedTime, names[i]) ==>
      names[i] in files && Compatible(opts, files[names[i]]) &&
      Fits(offsets, i, merged.numFaces, files[names[i]].numFaces)
  }

  /** Input i is the first input that may not be remerged, and status is the code the loop
      stops with there: -1 when the file does not open, 2 when it fails the check or its slot. */
  predicate FirstUnusable(opts: Options, merged: Texture, mergedTime: int, offsets: seq<int>, names: seq<string>,
                          times: map<string, int>, files: map<string, Texture>, i: int, status: int)
  {
    0 <= i < |names| == |offsets| &&
    (forall k | 0 <= k < i :: Usable(opts, merged, mergedTime, offsets, names, times, files, k)) &&
    !Usable(opts, merged, mergedTime, offsets, names, times, files, i) &&
    status == (if names[i] in files then 2 else -1)
  }

  /** The offsets recorded for the inputs of a remerge: the stored offset of a newer input,
      0 for the others (which are not rewritten). */
  function RemergedOffsets(offsets: seq<int>, names: seq<string>, times: map<string, int>, mergedTime: int): (r: seq<int>)
    requires |names| == |offsets|
    ensures |r| == |names| && forall i | 0 <= i < |names| :: r[i] == if Newer(times, mergedTime, names[i]) then offsets[i] else 0
  {
    seq(|names|, i requires 0 <= i < |names| => if Newer(times, mergedTime, names[i]) then offsets[i] else 0)
  }

  /** The loop of parse_remerge over the inputs: each input newer than the merged file
      must open (else -1), pass the check and fit its slot (else 2) and has its stored
      offset recorded; the others are recorded at 0.  The result is 0 exactly when every
      input is usable, and then every offset has been recorded. */
  method RemergeInputs(info: InputInfo, m: Texture, mtime: int, offsets: seq<int>, names: seq<string>,
                       times: map<string, int>, files: map<string, Texture>)
    returns (status: int)
    requires |offsets| == |names| && info.numFaces == m.numFaces
    modifies info
    ensures info.options == old(info.options) && info.numFaces == old(info.numFaces) && info.mergeMesh == old(info.mergeMesh)
    ensures |info.offsets| >= |old(info.offsets)| && info.offsets[..|old(info.offsets)|] == old(info.offsets)
    ensures status == 0 || status == -1 || status == 2
    ensures status == 0 <==> forall i | 0 <= i < |names| :: Usable(info.options, m, mtime, offsets, names, times, files, i)
    ensures status == 0 ==> info.offsets == old(info.offsets) + RemergedOffsets(offsets, names, times, mtime)
    ensures status == 2 ==>
      exists i | 0 <= i < |names| ::
        Newer(times, mtime, names[i]) && names[i] in files && !Usable(info.options, m, mtime, offsets, names, times, files, i)
    ensures status != 0 ==> exists i :: FirstUnusable(info.options, m, mtime, offsets, names, times, files, i, status)
  {
    ghost var offsets0 := info.offsets;
    ghost var opts := info.options;
    ghost var ro := RemergedOffsets(offsets, names, times, mtime);
    var i := 0;
    while i < |names|
      invariant 0 <= i <= |names|
      invariant info.options == opts && info.numFaces == m.numFaces && info.mergeMesh == old(info.mergeMesh)
      invariant forall k | 0 <= k < i :: Usable(opts, m, mtime, offsets, names, times, files, k)
      invariant info.offsets == offsets0 + ro[..i]
    {
      if Newer(times, mtime, names[i]) {
        if names[i] !in files {
          assert FirstUnusable(opts, m, mtime, offsets, names, times, files, i, -1);
          PrefixKept(offsets0, ro[..i]);
          return -1;
        }
        var tex := files[names[i]];
        if CheckCode(CheckPtx(info.options, tex)) != 0 {
          assert FirstUnusable(opts, m, mtime, offsets, names, times, files, i, 2);
          PrefixKept(offsets0, ro[..i]);
          return 2;
        }
        if (i != |names| - 1 && offsets[i + 1] - offsets[i] < tex.numFaces) || info.numFaces - offsets[i] < tex.numFaces {
          assert FirstUnusable(opts, m, mtime, offsets, names, times, files, i, 2);
          PrefixKept(offsets0, ro[..i]);
          return 2;
        }
        info.Add(offsets[i], 0);
      } else {
        info.Add(0, 0);
      }
      assert ro[..i + 1] == ro[..i] + [ro[i]];
      i := i + 1;
    }
    assert ro[..i] == ro;
    PrefixKept(offsets0, ro);
    return 0;
  }

  /** parse_remerge on a fresh merge state.  The merged file (None when it does not open),
      its write time (None when it cannot be read), its PtexMergedFiles and
      PtexMergedOffsets entries (None when missing) and the search directory (the write
      times and the files that open, by name) are parameters.  The result is -1 when the
      merged file or its entries are missing or disagree in number, or a newer input does
      not open; 2 when a newer input fails the check or does not fit; 0 otherwise, and then
      every input has its offset recorded. */
  method RemergeChecks(info: InputInfo, merged: Option<Texture>, mergedTime: Option<int>,
                       mergedFiles: Option<string>, mergedOffsets: Option<seq<int>>,
                       times: map<string, int>, files: map<string, Texture>)
    returns (status: int, names: seq<string>)
    modifies info
    ensures status == 0 || status == -1 || status == 2
    ensures |info.offsets| >= |old(info.offsets)| && info.offsets[..|old(info.offsets)|] == old(info.offsets) && info.mergeMesh == old(info.mergeMesh)
    ensures merged.None? || mergedTime.None? ==> status == -1 && names == [] && info.offsets == old(info.offsets)
    ensures merged.Some? && mergedTime.Some? ==>
      info.options == RemergeOptions(old(info.options), merged.value) && info.numFaces == merged.value.numFaces &&
      names == (if mergedFiles.Some? then Split(mergedFiles.value) else [])
    ensures status == 0 <==>
      merged.Some? && mergedTime.Some? && mergedFiles.Some? && mergedOffsets.Some? &&
      |mergedOffsets.value| == |names| &&
      forall i | 0 <= i < |names| ::
        Usable(info.options, merged.value, mergedTime.value, mergedOffsets.value, names, times, files, i)
    ensures status == 0 ==>
      info.offsets == old(info.offsets) + RemergedOffsets(mergedOffsets.value, names, times, mergedTime.value)
    ensures status == 2 ==>
      merged.Some? && mergedTime.Some? && mergedOffsets.Some? && |mergedOffsets.value| == |names| &&
      exists i | 0 <= i < |names| ::
        Newer(times, mergedTime.value, names[i]) && names[i] in files &&
        !Usable(info.options, merged.value, mergedTime.value, mergedOffsets.value, names, times, files, i)
    ensures status != 0 && merged.Some? && mergedTime.Some? && mergedFiles.Some? && mergedOffsets.Some? &&
            |mergedOffsets.value| == |names| ==>
      exists i :: FirstUnusable(info.options, merged.value, mergedTime.value, mergedOffsets.value, names, times, files, i, status)
  {
    if merged.None? || mergedTime.None? {
      return -1, [];
    }
    var m := merged.value;
    var mtime := mergedTime.value;
    info.options := RemergeOptions(info.options, m);
    info.numFaces := m.numFaces;
    if mergedFiles.None? {
      return -1, [];
    }
    names := SplitNames(mergedFiles.value, []);
    if mergedOffsets.None? {
      return -1, names;
    }
    var offsets := mergedOffsets.value;
    if |offsets| != |names| {
      return -1, names;
    }
    status := RemergeInputs(info, m, mtime, offsets, names, times, files);
  }

  /** What is appended leaves the front as it was. */
  lemma PrefixKept(front: seq<int>, back: seq<int>)
    ensures (front + back)[..|front|] == front
  {
  }

  lemma {:induction false} TotalNonNegative(xs: seq<int>)
    requires forall i | 0 <= i < |xs| :: xs[i] >= 0
    ensures Total(xs) >= 0
    decreases |xs|
  {
    if |xs| > 0 {
      TotalNonNegative(xs[..|xs| - 1]);
    }
  }

  /** The offsets a merge records leave every input exactly the room of its own faces, so a
      remerge accepts any input whose face count has not grown. */
  lemma RunningOffsetsFit(counts: seq<int>, i: int, nf: int)
    requires forall k | 0 <= k < |counts| :: counts[k] >= 0
    requires 0 <= i < |counts| && nf <= counts[i]
    ensures Fits(RunningOffsets(counts), i, Total(counts), nf)
  {
    var r := RunningOffsets(counts);
    assert counts == counts[..i] + [counts[i]] + counts[i + 1..];
    TotalAppend(counts[..i] + [counts[i]], counts[i + 1..]);
    TotalAppend(counts[..i], [counts[i]]);
    assert Total([counts[i]]) == counts[i] by {
      assert [counts[i]][..0] == [];
    }
    TotalNonNegative(counts[i + 1..]);
    if i < |counts| - 1 {
      assert counts[..i + 1] == counts[..i] + [counts[i]];
    }
  }
}
