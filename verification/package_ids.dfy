/** Package identifiers of the form `name;version;arch;data`, as the Python
    backend base builds them (`_get_package_id`) and takes them apart
    (`get_package_from_id`, a split on `;` with at most four cuts). */
module PackageIds {
  import opened Common
  import opened Strings

  /** The field separator of a package identifier. */
  const Sep: char := ';'

  /** `_get_package_id`: the four fields joined by `;`. */
  function PackageId(name: string, version: string, arch: string, data: string): (id: string)
    ensures id == name + [Sep] + version + [Sep] + arch + [Sep] + data
  {
    var parts := [name, version, arch, data];
    assert Join(parts[3..], [Sep]) == data;
    assert Join(parts[2..], [Sep]) == arch + [Sep] + data by {
      assert parts[2..][1..] == parts[3..];
    }
    assert Join(parts[1..], [Sep]) == version + [Sep] + arch + [Sep] + data by {
      assert parts[1..][1..] == parts[2..];
    }
    Join(parts, [Sep])
  }

  /** `get_package_from_id`: the identifier cut at its first four `;`. There
      are between one and five fields, joining them back with `;` gives the
      identifier again, and only a fifth field may still hold `;`, so every
      `;` up to the fourth is a cut. */
  function PackageFromId(id: string): (fields: seq<string>)
    ensures 1 <= |fields| <= 5
    ensures Join(fields, [Sep]) == id
    ensures forall k :: 0 <= k < |fields| - 1 ==> Sep !in fields[k]
    ensures |fields| < 5 ==> Sep !in fields[|fields| - 1]
  {
    var r := Split(id, [Sep], Some(4));
    SepFreeMeaning(r[..|r| - 1], [Sep]);
    forall k | 0 <= k < |r| - 1
      ensures Sep !in r[k]
    {
      assert r[k] == r[..|r| - 1][k];
      FindCharNone(r[k], Sep);
    }
    assert |r| < 5 ==> Sep !in r[|r| - 1] by {
      if |r| < 5 {
        SplitLastPiece(id, [Sep], Some(4));
        FindCharNone(r[|r| - 1], Sep);
      }
    }
    r
  }

  /** A text in which `[c]` does not occur does not hold `c`. */
  lemma FindCharNone(s: string, c: char)
    requires FindFirst(s, [c]).None?
    ensures c !in s
  {
    if c in s {
      var j :| 0 <= j < |s| && s[j] == c;
      OccursAtChar(s, c, j);
      FindFirstMeaning(s, [c]);
    }
  }

  /** The package name field, the first field of an identifier: the text
      before the first `;`, or the whole identifier when it has none. */
  function NameOf(id: string): (name: string)
    ensures Sep !in name
    ensures |name| <= |id| && name == id[..|name|]
    ensures |name| < |id| ==> id[|name|] == Sep
  {
    var fields := PackageFromId(id);
    assert Sep !in fields[0] && (|fields| == 1 ==> fields[0] == id);
    assert |fields| > 1 ==> id == fields[0] + [Sep] + Join(fields[1..], [Sep]) by {
      if |fields| > 1 {
        assert fields == [fields[0]] + fields[1..];
        JoinCons(fields[0], fields[1..], [Sep]);
      }
    }
    fields[0]
  }

  /** Taking apart an identifier built from four fields without `;` gives
      the four fields back. */
  lemma {:induction false} PackageIdRoundTrip(name: string, version: string, arch: string, data: string)
    requires Sep !in name && Sep !in version && Sep !in arch && Sep !in data
    ensures PackageFromId(PackageId(name, version, arch, data)) == [name, version, arch, data]
  {
    SplitJoinChar([name, version, arch, data], Sep, Some(4));
  }

  /** The name of an identifier built from fields without `;` is its name
      field. */
  lemma NameOfPackageId(name: string, version: string, arch: string, data: string)
    requires Sep !in name && Sep !in version && Sep !in arch && Sep !in data
    ensures NameOf(PackageId(name, version, arch, data)) == name
  {
    PackageIdRoundTrip(name, version, arch, data);
  }
}
