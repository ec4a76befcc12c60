/**
  Digest-to-path resolution of the CVMFS snapshotter: the layer digest label
  `algorithm:hex` names the directory
  `/cvmfs/<repository>/.layers/<first two hex chars>/<hex>/layerfs`.

  The resolver keeps only the second `:`-separated field of the label, and
  indexes and slices it without checks. A label without a colon or with a field
  shorter than two characters therefore makes the Go runtime panic. The model
  returns those panics as values; it does not turn them into ordinary errors.
 */
module Layer {
  import opened Strings
  import opened FilePath

  /** The Go runtime panics the resolver can raise, with the index and length they report. */
  datatype RuntimePanic =
    | IndexOutOfRange(index: int, length: int)   // `fields[1]` on a slice with one element
    | SliceOutOfRange(high: int, length: int)    // `hash[0:2]` on a string shorter than 2

  datatype Resolution =
    | Resolved(hash: string, path: string)
    | Panic(cause: RuntimePanic)

  /** The backing directory of layer `hash` in `repository`, built with `filepath.Join`.
      Whatever the repository name and the hash hold, the result is an absolute path. */
  function LayerPath(repository: string, hash: string): (p: string)
    requires |hash| >= 2
    ensures IsRooted(p)
  {
    var elems := ["/"] + ["cvmfs", repository, ".layers", hash[..2], hash, "layerfs"];
    assert IsRooted(JoinWith(elems, '/')) by {
      JoinWithStartsWithFirst(elems, '/');
    }
    assert FirstNonEmpty(elems) == 0 && elems[0..] == elems;
    Join(elems)
  }

  /** Resolves a digest label to the layer hash and its backing path. */
  function Resolve(repository: string, digestLabel: string): (r: Resolution)
    ensures ':' !in digestLabel ==> r == Panic(IndexOutOfRange(1, 1))
    ensures r.Panic? ==> (r.cause.IndexOutOfRange? <==> ':' !in digestLabel)
    ensures r.Resolved? ==> |r.hash| >= 2 && ':' !in r.hash && r.path == LayerPath(repository, r.hash)
    ensures r.Resolved? ==> r.path != "" && r.path[0] == '/'
  {
    var fields := Split(digestLabel, ':');
    SplitHasSecondField(digestLabel, ':');
    SplitFieldsFree(digestLabel, ':');
    if |fields| < 2 then Panic(IndexOutOfRange(1, |fields|))
    else
      var hash := fields[1];
      if |hash| < 2 then Panic(SliceOutOfRange(2, |hash|))
      else
        Resolved(hash, LayerPath(repository, hash))
  }

  /** The second field of `algorithm:hash[:...]` is `hash`. */
  lemma SecondField(algorithm: string, hash: string, rest: string)
    requires ':' !in algorithm && ':' !in hash
    requires rest == "" || rest[0] == ':'
    ensures var fields := Split(algorithm + ":" + hash + rest, ':');
            |fields| >= 2 && fields[1] == hash
  {
    var tail := hash + rest;
    assert Split(algorithm + ":" + hash + rest, ':') == [algorithm] + Split(tail, ':') by {
      assert algorithm + ":" + hash + rest == algorithm + [':'] + tail;
      SplitAfterField(algorithm, ':', tail);
    }
    assert |Split(tail, ':')| >= 1 && Split(tail, ':')[0] == hash by {
      if rest == "" {
        assert tail == hash;
        SplitNoSeparator(hash, ':');
      } else {
        assert tail == hash + [':'] + rest[1..];
        SplitAfterField(hash, ':', rest[1..]);
      }
    }
  }

  /** The hash is exactly the text between the first and the second colon (or the
      end of the label); nothing after a second colon is used. */
  lemma SecondFieldIsHash(repository: string, algorithm: string, hash: string, rest: string)
    requires ':' !in algorithm && ':' !in hash
    requires rest == "" || rest[0] == ':'
    ensures var r := Resolve(repository, algorithm + ":" + hash + rest);
            if |hash| >= 2 then r == Resolved(hash, LayerPath(repository, hash))
            else r == Panic(SliceOutOfRange(2, |hash|))
  {
    SecondField(algorithm, hash, rest);
  }

  predicate IsHexDigit(c: char)
  {
    '0' <= c <= '9' || 'a' <= c <= 'f'
  }

  /** A lower-case hex string of at least two digits, as a SHA-256 digest is. */
  predicate IsHexDigest(hash: string)
  {
    |hash| >= 2 && forall i :: 0 <= i < |hash| ==> IsHexDigit(hash[i])
  }

  lemma HexIsPlain(h: string)
    requires |h| >= 1 && forall i :: 0 <= i < |h| ==> IsHexDigit(h[i])
    ensures IsPlainElement(h) && ':' !in h
  {
    assert IsHexDigit(h[0]);
  }

  /** The fan-out directory `hash[..2]` of a plain hash is itself plain unless it is `..`. */
  predicate IsPlainHash(hash: string)
  {
    |hash| >= 2 && IsPlainElement(hash) && hash[..2] != ".."
  }

  /** For a plain repository name and a plain hash, the backing path is the plain
      concatenation of the elements, without any effect of path cleaning. */
  lemma PlainLayerPath(repository: string, hash: string)
    requires IsPlainElement(repository) && IsPlainHash(hash)
    ensures LayerPath(repository, hash) == "/cvmfs/" + repository + "/.layers/" + hash[..2] + "/" + hash + "/layerfs"
  {
    var fan := hash[..2];
    var elems := ["cvmfs", repository, ".layers", fan, hash, "layerfs"];
    assert LayerPath(repository, hash) == "/" + JoinWith(elems, '/') by {
      LayerElementsPlain(repository, hash);
      JoinRootedPlain(elems);
    }
    LayerElementsJoined(repository, fan, hash);
  }

  /** A plain hash of a plain repository stays under the repository's `.layers`
      directory, in the fan-out directory named by its first two characters. */
  lemma PlainHashStaysInLayers(repository: string, algorithm: string, hash: string, rest: string)
    requires IsPlainElement(repository) && IsPlainHash(hash)
    requires ':' !in algorithm && ':' !in hash
    requires rest == "" || rest[0] == ':'
    ensures Resolve(repository, algorithm + ":" + hash + rest)
         == Resolved(hash, "/cvmfs/" + repository + "/.layers/" + hash[..2] + "/" + hash + "/layerfs")
  {
    SecondFieldIsHash(repository, algorithm, hash, rest);
    PlainLayerPath(repository, hash);
  }

  /** A hex digest is a plain hash, so its layer path is the plain concatenation. */
  lemma HexLayerPath(repository: string, hash: string)
    requires IsPlainElement(repository) && IsHexDigest(hash)
    ensures LayerPath(repository, hash) == "/cvmfs/" + repository + "/.layers/" + hash[..2] + "/" + hash + "/layerfs"
  {
    HexIsPlain(hash);
    assert IsHexDigit(hash[0]);
    PlainLayerPath(repository, hash);
  }

  lemma LayerElementsPlain(repository: string, hash: string)
    requires IsPlainElement(repository) && IsPlainHash(hash)
    ensures AllPlain(["cvmfs", repository, ".layers", hash[..2], hash, "layerfs"])
  {
    FixedElementsPlain();
  }

  /** The fixed elements of a layer path are plain. */
  lemma FixedElementsPlain()
    ensures IsPlainElement("cvmfs") && IsPlainElement(".layers") && IsPlainElement("layerfs")
  {
    assert "cvmfs"[0] == 'c' && ".layers"[1] == 'l' && "layerfs"[0] == 'l';
  }

  /** The root followed by the join of the six elements of a layer path, written out. */
  lemma LayerElementsJoined(repository: string, fan: string, hash: string)
    ensures "/" + JoinWith(["cvmfs", repository, ".layers", fan, hash, "layerfs"], '/')
         == "/cvmfs/" + repository + "/.layers/" + fan + "/" + hash + "/layerfs"
  {
    JoinSix("cvmfs", repository, ".layers", fan, hash, "layerfs");
    LayerText(repository, fan, hash);
  }

  /** The root followed by the join of six elements, written out. */
  lemma JoinSix(a: string, b: string, c: string, d: string, e: string, f: string)
    ensures "/" + JoinWith([a, b, c, d, e, f], '/') == "/" + a + "/" + b + "/" + c + "/" + d + "/" + e + "/" + f
  {
    assert JoinWith([a], '/') == a;
    RootedSnoc([a], b);
    assert [a] + [b] == [a, b];
    RootedSnoc([a, b], c);
    assert [a, b] + [c] == [a, b, c];
    RootedSnoc([a, b, c], d);
    assert [a, b, c] + [d] == [a, b, c, d];
    RootedSnoc([a, b, c, d], e);
    assert [a, b, c, d] + [e] == [a, b, c, d, e];
    RootedSnoc([a, b, c, d, e], f);
    assert [a, b, c, d, e] + [f] == [a, b, c, d, e, f];
  }

  /** The fixed parts of a layer path, regrouped into three texts. */
  lemma LayerText(repository: string, fan: string, hash: string)
    ensures "/" + "cvmfs" + "/" + repository + "/" + ".layers" + "/" + fan + "/" + hash + "/" + "layerfs"
         == "/cvmfs/" + repository + "/.layers/" + fan + "/" + hash + "/layerfs"
  {
    assert "/" + "cvmfs" + "/" == "/cvmfs/";
    assert "/" + ".layers" + "/" == "/.layers/";
    assert "/" + "layerfs" == "/layerfs";
  }

  lemma RootedSnoc(parts: seq<string>, x: string)
    requires |parts| >= 1
    ensures "/" + JoinWith(parts + [x], '/') == "/" + JoinWith(parts, '/') + "/" + x
  {
    JoinWithSnoc(parts, x, '/');
    SlashAssoc("/", JoinWith(parts, '/'), x);
  }

  /** Regrouping after a separator; kept apart so that the solver sees it on plain variables. */
  lemma SlashAssoc(p: string, j: string, x: string)
    ensures p + (j + ['/'] + x) == p + j + "/" + x
  {
    assert ['/'] == "/";
  }

  /** The cleaning in `filepath.Join` also applies to `..` elements inside the hash:
      for every plainly named repository, the label `sha256:../..` resolves to
      `/layerfs`, outside the repository and outside `/cvmfs`. */
  lemma DotDotHashLeavesRepository(repository: string)
    requires IsPlainElement(repository)
    ensures Resolve(repository, "sha256:../..") == Resolved("../..", "/layerfs")
  {
    DotDotLabel(repository);
    DotDotJoin(repository);
    DotDotClean(repository);
  }

  lemma DotDotLabel(repository: string)
    ensures Resolve(repository, "sha256:../..") == Resolved("../..", LayerPath(repository, "../.."))
  {
    assert "sha256:../.." == "sha256" + ":" + "../.." + "";
    SecondFieldIsHash(repository, "sha256", "../..", "");
  }

  /** The text handed to `Clean`: the fan-out `..` and the two `..` of the hash. */
  lemma DotDotJoin(repository: string)
    ensures LayerPath(repository, "../..")
         == Clean(JoinWith(["", ""] + ["cvmfs", repository, ".layers"] + ["..", "..", ".."] + ["layerfs"], '/'))
  {
    var front := ["cvmfs", repository, ".layers", ".."];
    var hash := "../..";
    var six := front + [hash] + ["layerfs"];
    var eight := front + ["..", ".."] + ["layerfs"];
    assert JoinWith(six, '/') == JoinWith(eight, '/') by {
      JoinWithSnoc(front + [hash], "layerfs", '/');
      JoinWithSnoc(front, hash, '/');
      JoinWithSnoc(front + ["..", ".."], "layerfs", '/');
      JoinWithAppend(front, ["..", ".."], '/');
      assert JoinWith(["..", ".."], '/') == hash;
    }
    assert LayerPath(repository, hash) == Clean(JoinWith(["/"] + six, '/')) by {
      assert hash[..2] == "..";
      assert ["/"] + ["cvmfs", repository, ".layers", hash[..2], hash, "layerfs"] == ["/"] + six;
      assert FirstNonEmpty(["/"] + six) == 0 && (["/"] + six)[0..] == ["/"] + six;
    }
    assert JoinWith(["/"] + six, '/') == JoinWith([""] + ([""] + eight), '/') by {
      JoinRootText(six);
      EmptyJoin(six);
      EmptyJoin([""] + six);
      EmptyJoin(eight);
      EmptyJoin([""] + eight);
    }
    assert [""] + ([""] + eight) == ["", ""] + ["cvmfs", repository, ".layers"] + ["..", "..", ".."] + ["layerfs"];
  }

  /** Three `..` after `cvmfs/<repository>/.layers` climb back to the root. */
  lemma DotDotClean(repository: string)
    requires IsPlainElement(repository)
    ensures Clean(JoinWith(["", ""] + ["cvmfs", repository, ".layers"] + ["..", "..", ".."] + ["layerfs"], '/')) == "/layerfs"
  {
    var parts := ["", ""] + ["cvmfs", repository, ".layers"] + ["..", "..", ".."] + ["layerfs"];
    var text := JoinWith(parts, '/');
    assert Split(text, '/') == parts by {
      FixedElementsPlain();
      assert SlashFree(parts);
      SplitJoin(parts, '/');
    }
    assert IsRooted(text) by {
      assert parts == [""] + parts[1..];
      JoinWithCons("", parts[1..], '/');
    }
    assert Clean(text) == "/" + JoinWith(["layerfs"], '/') by {
      DotDotReduce(repository);
      CleanRooted(text, ["layerfs"]);
    }
    assert "/" + JoinWith(["layerfs"], '/') == "/layerfs";
  }

  lemma DotDotReduce(repository: string)
    requires IsPlainElement(repository)
    ensures Reduce(["", ""] + ["cvmfs", repository, ".layers"] + ["..", "..", ".."] + ["layerfs"], true, []) == ["layerfs"]
  {
    var front := ["cvmfs", repository, ".layers"];
    ReduceAppend(["", ""] + front + ["..", "..", ".."], ["layerfs"], true, []);
    ReduceAppend(["", ""] + front, ["..", "..", ".."], true, []);
    ReduceAppend(["", ""], front, true, []);
    assert Reduce(["", ""], true, []) == [];
    FixedElementsPlain();
    ReducePlain(front, true, []);
    assert Reduce(["..", "..", ".."], true, front) == [];
    assert Reduce(["layerfs"], true, []) == ["layerfs"];
  }

  /** Eight hex digits; eight copies of it make a 64-digit SHA-256 value. */
  const HexBlock := "abcd1234"
  const ExampleHash := HexBlock + HexBlock + HexBlock + HexBlock + HexBlock + HexBlock + HexBlock + HexBlock

  lemma HexConcat(a: string, b: string)
    requires forall i :: 0 <= i < |a| ==> IsHexDigit(a[i])
    requires forall i :: 0 <= i < |b| ==> IsHexDigit(b[i])
    ensures forall i :: 0 <= i < |a + b| ==> IsHexDigit((a + b)[i])
  {
    forall i | 0 <= i < |a + b| ensures IsHexDigit((a + b)[i]) {
      if i < |a| {
        assert (a + b)[i] == a[i];
      } else {
        assert (a + b)[i] == b[i - |a|];
      }
    }
  }

  lemma ExampleHashIsHex()
    ensures IsHexDigest(ExampleHash) && ExampleHash[..2] == "ab"
  {
    var q := HexBlock;
    forall i | 0 <= i < |q| ensures IsHexDigit(q[i]) {
      assert i in {0, 1, 2, 3, 4, 5, 6, 7};
    }
    HexConcat(q, q);
    HexConcat(q + q, q);
    HexConcat(q + q + q, q);
    HexConcat(q + q + q + q, q);
    HexConcat(q + q + q + q + q, q);
    HexConcat(q + q + q + q + q + q, q);
    HexConcat(q + q + q + q + q + q + q, q);
    assert ExampleHash[0] == 'a' && ExampleHash[1] == 'b';
  }

  /** A `sha256:` label whose hex value starts with `ab` resolves under `.layers/ab/`
      of the default repository. */
  lemma Sha256AbLabel(h: string)
    requires IsHexDigest(h) && h[..2] == "ab"
    ensures Resolve("unpacked.cern.ch", "sha256:" + h)
         == Resolved(h, "/cvmfs/unpacked.cern.ch/.layers/ab/" + h + "/layerfs")
  {
    assert IsPlainElement("unpacked.cern.ch") by {
      assert "unpacked.cern.ch"[0] == 'u';
    }
    Sha256Label("unpacked.cern.ch", h);
    DefaultFanOut(h);
  }

  /** The layer path of a hash starting with `ab` in the default repository, as one text. */
  lemma DefaultFanOut(h: string)
    requires |h| >= 2 && h[..2] == "ab"
    ensures "/cvmfs/" + "unpacked.cern.ch" + "/.layers/" + h[..2] + "/" + h + "/layerfs"
         == "/cvmfs/unpacked.cern.ch/.layers/ab/" + h + "/layerfs"
  {
    assert "/cvmfs/" + "unpacked.cern.ch" + "/.layers/" + "ab" + "/" == "/cvmfs/unpacked.cern.ch/.layers/ab/";
  }

  /** A `sha256:` label with a hex value resolves under the `.layers` directory of
      a plainly named repository. */
  lemma Sha256Label(repository: string, h: string)
    requires IsPlainElement(repository) && IsHexDigest(h)
    ensures Resolve(repository, "sha256:" + h)
         == Resolved(h, "/cvmfs/" + repository + "/.layers/" + h[..2] + "/" + h + "/layerfs")
  {
    assert "sha256:" + h == "sha256" + ":" + h by {
      assert "sha256" + ":" == "sha256:";
    }
    HexLabelResolves(repository, "sha256", h);
  }

  /** An `algorithm:hex` label resolves to the hex value, under the `.layers`
      directory of a plainly named repository. */
  lemma HexLabelResolves(repository: string, algorithm: string, h: string)
    requires IsPlainElement(repository) && IsHexDigest(h) && ':' !in algorithm
    ensures Resolve(repository, algorithm + ":" + h)
         == Resolved(h, "/cvmfs/" + repository + "/.layers/" + h[..2] + "/" + h + "/layerfs")
  {
    HexIsPlain(h);
    assert IsHexDigit(h[0]);
    assert algorithm + ":" + h == algorithm + ":" + h + "";
    PlainHashStaysInLayers(repository, algorithm, h, "");
  }

  /** The 64-digit example digest resolves to its fan-out directory in the default repository. */
  lemma Sha256Example()
    ensures Resolve("unpacked.cern.ch", "sha256:" + ExampleHash)
         == Resolved(ExampleHash, "/cvmfs/unpacked.cern.ch/.layers/ab/" + ExampleHash + "/layerfs")
  {
    ExampleHashIsHex();
    Sha256AbLabel(ExampleHash);
  }
}
