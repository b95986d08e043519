/** Artifact persistence: the tool's file-name scheme and the no-clobber
    store behind `marshaling_policy::write_obj` and `read_obj`. The file
    system is a map from path to contents. */
module ArtifactStore {
  import opened Common

  type Path = string

  /** A decimal digit character. */
  predicate IsDigit(c: char)
  {
    '0' <= c <= '9'
  }

  function DigitChar(d: nat): (c: char)
    requires d < 10
    ensures IsDigit(c)
  {
    ('0' as int + d) as char
  }

  function DigitValue(c: char): (d: nat)
    requires IsDigit(c)
    ensures d < 10
  {
    c as int - '0' as int
  }

  /** `std::to_string` of an unsigned index: its decimal digits, most
      significant first, without sign or leading zeros. */
  function Decimal(n: nat): (s: string)
    ensures |s| >= 1
    ensures forall i :: 0 <= i < |s| ==> IsDigit(s[i])
  {
    if n < 10 then [DigitChar(n)] else Decimal(n / 10) + [DigitChar(n % 10)]
  }

  /** The number a string of decimal digits denotes. */
  function ParseDecimal(s: string): nat
    requires forall i :: 0 <= i < |s| ==> IsDigit(s[i])
  {
    if s == [] then 0 else 10 * ParseDecimal(s[..|s| - 1]) + DigitValue(s[|s| - 1])
  }

  lemma {:induction false} DecimalRoundTrip(n: nat)
    ensures ParseDecimal(Decimal(n)) == n
  {
    if n >= 10 {
      DecimalRoundTrip(n / 10);
      var s := Decimal(n);
      assert s[..|s| - 1] == Decimal(n / 10);
    }
  }

  /** Only the index 0 is written with a leading zero. */
  lemma DecimalNoLeadingZero(n: nat)
    ensures Decimal(n)[0] == '0' <==> n == 0
  {
    if n >= 10 {
      DecimalNoLeadingZero(n / 10);
    }
  }

  /** `prefix + std::to_string(idx) + ".bin"`: a per-voter artifact. */
  function IndexedName(prefix: string, idx: nat): Path
  {
    prefix + Decimal(idx) + ".bin"
  }

  /** `prefix + "_chunked" + std::to_string(idx) + ".bin"`: the chunked
      verifier input of one voter. */
  function ChunkedName(prefix: string, idx: nat): Path
  {
    prefix + "_chunked" + Decimal(idx) + ".bin"
  }

  /** `prefix + ".bin"`: an election-wide artifact. */
  function SingletonName(prefix: string): Path
  {
    prefix + ".bin"
  }

  /** Under one prefix, distinct voter indices name distinct files. */
  lemma IndexedNameInjective(prefix: string, i: nat, j: nat)
    ensures IndexedName(prefix, i) == IndexedName(prefix, j) <==> i == j
  {
    if IndexedName(prefix, i) == IndexedName(prefix, j) {
      var a, b := IndexedName(prefix, i), IndexedName(prefix, j);
      assert |Decimal(i)| == |Decimal(j)|;
      assert Decimal(i) == a[|prefix|..|a| - 4];
      assert Decimal(j) == b[|prefix|..|b| - 4];
      DecimalRoundTrip(i);
      DecimalRoundTrip(j);
    }
  }

  /** The chunked file name of one voter is the chunked file of no other. */
  lemma ChunkedNameInjective(prefix: string, i: nat, j: nat)
    ensures ChunkedName(prefix, i) == ChunkedName(prefix, j) <==> i == j
  {
    IndexedNameInjective(prefix + "_chunked", i, j);
  }

  /** Under one prefix, the per-voter, the chunked and the election-wide
      names never coincide: the character after the prefix is a digit, an
      underscore and a dot respectively. */
  lemma NamesDistinct(prefix: string, i: nat, j: nat)
    ensures IndexedName(prefix, i) != ChunkedName(prefix, j)
    ensures IndexedName(prefix, i) != SingletonName(prefix)
    ensures ChunkedName(prefix, j) != SingletonName(prefix)
  {
    assert IndexedName(prefix, i)[|prefix|] == Decimal(i)[0];
    assert ChunkedName(prefix, j)[|prefix|] == '_';
    assert SingletonName(prefix)[|prefix|] == '.';
  }

  /** The contents of a file written from a list of blobs: the blobs in list
      order, one after another. */
  function Flatten(blobs: seq<seq<byte>>): seq<byte>
  {
    if blobs == [] then [] else Flatten(blobs[..|blobs| - 1]) + blobs[|blobs| - 1]
  }

  function TotalLength(blobs: seq<seq<byte>>): nat
  {
    if blobs == [] then 0 else TotalLength(blobs[..|blobs| - 1]) + |blobs[|blobs| - 1]|
  }

  /** Blob `k` occupies the octets of the file that start after blobs 0..k-1. */
  lemma {:induction false} FlattenAt(blobs: seq<seq<byte>>, k: nat)
    requires k < |blobs|
    ensures |Flatten(blobs)| == TotalLength(blobs)
    ensures TotalLength(blobs[..k]) + |blobs[k]| <= TotalLength(blobs)
    ensures Flatten(blobs)[TotalLength(blobs[..k])..TotalLength(blobs[..k]) + |blobs[k]|] == blobs[k]
  {
    var last := |blobs| - 1;
    var init := blobs[..last];
    if k == last {
      assert blobs[..k] == init;
      FlattenLength(init);
    } else {
      FlattenAt(init, k);
      assert init[..k] == blobs[..k];
    }
  }

  lemma {:induction false} FlattenLength(blobs: seq<seq<byte>>)
    ensures |Flatten(blobs)| == TotalLength(blobs)
  {
    if blobs != [] {
      FlattenLength(blobs[..|blobs| - 1]);
    }
  }

  lemma {:induction false} FlattenAppend(a: seq<seq<byte>>, b: seq<seq<byte>>)
    ensures Flatten(a + b) == Flatten(a) + Flatten(b)
  {
    if b == [] {
      assert a + b == a;
    } else {
      var last := |b| - 1;
      assert (a + b)[..|a + b| - 1] == a + b[..last];
      FlattenAppend(a, b[..last]);
    }
  }

  /** The file system as the tool sees it: each existing path with its
      contents. `write_obj` streams into it; `read_obj` reads a whole file. */
  class FileSystem {
    var files: map<Path, seq<byte>>

    constructor (initial: map<Path, seq<byte>>)
      ensures files == initial
    {
      files := initial;
    }

    /** `write_obj`: an existing file is left as it is (and reported);
        otherwise the file is created and every octet of every blob is
        written to it in order. */
    method WriteObj(path: Path, blobs: seq<seq<byte>>) returns (written: bool)
      modifies this
      ensures written <==> path !in old(files)
      ensures !written ==> files == old(files)
      ensures written ==> files == old(files)[path := Flatten(blobs)]
    {
      if path in files {
        return false;
      }
      files := files[path := []];
      var i := 0;
      while i < |blobs|
        invariant 0 <= i <= |blobs|
        invariant files == old(files)[path := Flatten(blobs[..i])]
      {
        var blob := blobs[i];
        var j := 0;
        assert Flatten(blobs[..i]) + blob[..0] == Flatten(blobs[..i]);
        while j < |blob|
          invariant 0 <= j <= |blob|
          invariant files == old(files)[path := Flatten(blobs[..i]) + blob[..j]]
        {
          assert Flatten(blobs[..i]) + blob[..j + 1] == (Flatten(blobs[..i]) + blob[..j]) + [blob[j]];
          files := files[path := files[path] + [blob[j]]];
          j := j + 1;
        }
        assert blobs[..i + 1][..i] == blobs[..i];
        assert blob[..j] == blob;
        i := i + 1;
      }
      assert blobs[..i] == blobs;
      written := true;
    }

    /** `read_obj`: the whole contents of an existing file; a missing file
        is an error. */
    method ReadObj(path: Path) returns (r: Result<seq<byte>>)
      ensures r.Success? <==> path in files
      ensures r.Success? ==> r.value == files[path]
      ensures r.Failure? ==> r.error == FileMissing(path)
    {
      if path !in files {
        return Failure(FileMissing(path));
      }
      r := Success(files[path]);
    }

    /** The two verifier inputs a vote publishes (the `r1cs-verifier-input-output`
        branch of the vote phase): `proof ‖ vk_crs ‖ pk_eid ‖ ct ‖ pinput` under
        the per-voter name and `proof ‖ vk_crs ‖ pk_eid ‖ ct ‖ eid ‖ sn ‖ rt`
        under the chunked name. Each write is skipped if its file exists. */
    method WriteVerifierInputs(prefix: string, idx: nat,
                               proof: seq<byte>, vkCrs: seq<byte>, pkEid: seq<byte>, ct: seq<byte>,
                               pinput: seq<byte>, eid: seq<byte>, sn: seq<byte>, rt: seq<byte>)
      modifies this
      ensures var plain, chunked := IndexedName(prefix, idx), ChunkedName(prefix, idx);
        && files.Keys == old(files).Keys + {plain, chunked}
        && (forall p :: p in old(files) ==> files[p] == old(files)[p])
        && (plain !in old(files) ==> files[plain] == proof + vkCrs + pkEid + ct + pinput)
        && (chunked !in old(files) ==> files[chunked] == proof + vkCrs + pkEid + ct + eid + sn + rt)
    {
      var plain, chunked := IndexedName(prefix, idx), ChunkedName(prefix, idx);
      NamesDistinct(prefix, idx, idx);
      var header := [proof, vkCrs, pkEid, ct];
      FlattenAppend(header, [pinput]);
      FlattenAppend(header, [eid, sn, rt]);
      assert Flatten(header) == proof + vkCrs + pkEid + ct by {
        var h1, h2, h3 := [proof], [proof, vkCrs], [proof, vkCrs, pkEid];
        assert Flatten(h1) == proof by { assert h1[..0] == []; }
        assert Flatten(h2) == proof + vkCrs by { assert h2[..1] == h1; }
        assert Flatten(h3) == proof + vkCrs + pkEid by { assert h3[..2] == h2; }
        assert header[..3] == h3;
      }
      var tail := [eid, sn, rt];
      assert Flatten(tail) == eid + sn + rt by {
        assert tail[..2] == [eid, sn];
        assert tail[..2][..1] == [eid];
        assert Flatten([eid]) == eid by { assert [eid][..0] == []; }
      }
      var _ := WriteObj(plain, header + [pinput]);
      var _ := WriteObj(chunked, header + [eid, sn, rt]);
    }
  }

  /** Writing to a path that is absent and reading it back gives the blobs in
      order; a second write to it changes nothing. */
  method WriteThenRead(fs: FileSystem, path: Path, blobs: seq<seq<byte>>, again: seq<seq<byte>>)
      returns (r: Result<seq<byte>>)
    requires path !in fs.files
    modifies fs
    ensures r == Success(Flatten(blobs))
  {
    var _ := fs.WriteObj(path, blobs);
    var _ := fs.WriteObj(path, again);
    r := fs.ReadObj(path);
  }
}
