/** Path and name helpers: `extractFilename` (the part of a path after its last
    '/'), the default output prefix (the file name up to the first "master."),
    and the names of storage blocks and output files. */
module Paths {
  import opened Wrappers
  import opened Decimal

  const MasterTag: string := "master."
  const BlockTag: string := "data_"
  const OutputExtension: string := ".cbf"

  /** `strrchr(s, '/')`: the index of the last '/' in `s`, if any. */
  function LastSlash(s: string): (r: Option<nat>)
    ensures r.None? <==> '/' !in s
    ensures r.Some? ==> r.value < |s| && s[r.value] == '/' && '/' !in s[r.value + 1..]
  {
    if s == [] then None
    else if s[|s| - 1] == '/' then Some(|s| - 1)
    else
      var r := LastSlash(s[..|s| - 1]);
      assert s == s[..|s| - 1] + [s[|s| - 1]];
      r
  }

  /** `extractFilename`: the whole path when it has no '/', otherwise what
      follows the last '/'. */
  function ExtractFilename(path: string): (name: string)
    ensures '/' !in name
    ensures |name| <= |path| && path[|path| - |name|..] == name
    ensures '/' !in path ==> name == path
    ensures '/' in path ==> |name| < |path| && path[|path| - |name| - 1] == '/'
                              && path[|path| - |name|..] == name
  {
    match LastSlash(path)
    case None => path
    case Some(k) => path[k + 1..]
  }

  /** The file name of `dir/name` is `name`, whatever the directory. */
  lemma ExtractFilenameOfJoin(dir: string, name: string)
    requires '/' !in name
    ensures ExtractFilename(dir + "/" + name) == name
  {
    var p := dir + "/" + name;
    assert p[|dir|] == '/';
    assert p[|dir| + 1..] == name;
  }

  predicate OccursAt(s: string, pat: string, i: nat)
  {
    i + |pat| <= |s| && s[i..i + |pat|] == pat
  }

  /** The first index at or after `from` where `pat` occurs in `s`. */
  function FindFrom(s: string, pat: string, from: nat): (r: Option<nat>)
    ensures r.None? ==> forall j :: from <= j ==> !OccursAt(s, pat, j)
    ensures r.Some? ==> from <= r.value && OccursAt(s, pat, r.value)
                        && forall j :: from <= j < r.value ==> !OccursAt(s, pat, j)
    decreases |s| - from
  {
    if from + |pat| > |s| then None
    else if s[from..from + |pat|] == pat then Some(from)
    else FindFrom(s, pat, from + 1)
  }

  /** `strstr(s, pat)`: the index of the first occurrence of `pat` in `s`. */
  function Find(s: string, pat: string): (r: Option<nat>)
    ensures r.None? <==> forall j :: !OccursAt(s, pat, j)
    ensures r.Some? ==> OccursAt(s, pat, r.value)
                        && forall j: nat :: j < r.value ==> !OccursAt(s, pat, j)
  {
    FindFrom(s, pat, 0)
  }

  ghost predicate HasMasterTag(path: string)
  {
    exists j: nat :: OccursAt(ExtractFilename(path), MasterTag, j)
  }

  /** The prefix derived when `-p` is not given: the file name of the master
      file up to its first "master.". The source subtracts the file name from
      the result of `strstr` without a NULL check, so the tag must occur. */
  function DefaultPrefix(masterFile: string): (prefix: string)
    requires HasMasterTag(masterFile)
    ensures var name := ExtractFilename(masterFile);
            |prefix| <= |name| && prefix == name[..|prefix|] && OccursAt(name, MasterTag, |prefix|)
            && (forall j: nat :: j < |prefix| ==> !OccursAt(name, MasterTag, j))
    ensures '/' !in prefix
  {
    var name := ExtractFilename(masterFile);
    var found := Find(name, MasterTag);
    assert found.Some? by {
      var j: nat :| OccursAt(name, MasterTag, j);
    }
    name[..found.value]
  }

  /** The output prefix: the one given with `-p`, or the default one. */
  function OutputPrefix(given: Option<string>, masterFile: string): (prefix: string)
    requires given.Some? || HasMasterTag(masterFile)
    ensures given.Some? ==> prefix == given.value
    ensures given.None? ==> prefix == DefaultPrefix(masterFile)
  {
    match given
    case Some(p) => p
    case None => DefaultPrefix(masterFile)
  }

  /** Two indices that are each the first occurrence of `pat` are equal. */
  lemma FirstOccurrenceUnique(s: string, pat: string, i: nat, k: nat)
    requires OccursAt(s, pat, i) && forall j: nat :: j < i ==> !OccursAt(s, pat, j)
    requires OccursAt(s, pat, k) && forall j: nat :: j < k ==> !OccursAt(s, pat, j)
    ensures i == k
  {
  }

  /** For a master file `dir/<p>master.<ext>` with no earlier "master." the
      default prefix is `p`. */
  lemma DefaultPrefixOfMasterFile(dir: string, p: string, ext: string)
    requires '/' !in p + MasterTag + ext
    requires forall j: nat :: j < |p| ==> !OccursAt(p + MasterTag + ext, MasterTag, j)
    ensures HasMasterTag(dir + "/" + p + MasterTag + ext)
    ensures DefaultPrefix(dir + "/" + p + MasterTag + ext) == p
  {
    var name := p + MasterTag + ext;
    var path := dir + "/" + p + MasterTag + ext;
    assert path == dir + "/" + name;
    ExtractFilenameOfJoin(dir, name);
    assert ExtractFilename(path) == name;
    assert name[|p|..|p| + |MasterTag|] == MasterTag;
    assert OccursAt(name, MasterTag, |p|);
    var r := DefaultPrefix(path);
    FirstOccurrenceUnique(name, MasterTag, |p|, |r|);
    assert r == name[..|p|] == p;
  }

  /** `data_%06d`: the name of storage block `block`. */
  function BlockName(block: int): (name: string)
    ensures |BlockTag| <= |name|
    ensures name[..|BlockTag|] == BlockTag
    ensures ParseInt(name[|BlockTag|..]) == block
  {
    var name := BlockTag + Format06(block);
    Format06RoundTrip(block);
    assert name[|BlockTag|..] == Format06(block);
    name
  }

  /** `data_name` is a 20-byte buffer: the name of any 32-bit block number
      fits with its terminating NUL, so `snprintf` never truncates it. */
  lemma BlockNameFits(block: int)
    requires -0x8000_0000 <= block < 0x8000_0000
    ensures |BlockName(block)| + 1 <= 20
  {
    Format06Width(block);
  }

  /** `<prefix>%06d.cbf`: the name of the output file of frame number `n`. */
  function OutputFileName(prefix: string, n: int): (name: string)
    ensures |prefix| + |OutputExtension| <= |name|
    ensures name[..|prefix|] == prefix
    ensures name[|name| - |OutputExtension|..] == OutputExtension
    ensures ParseInt(name[|prefix|..|name| - |OutputExtension|]) == n
  {
    var name := prefix + Format06(n) + OutputExtension;
    Format06RoundTrip(n);
    assert name[|prefix|..|name| - |OutputExtension|] == Format06(n);
    name
  }

  /** With one prefix, distinct output numbers name distinct files. */
  lemma OutputFileNameInjective(prefix: string, a: int, b: int)
    ensures a != b ==> OutputFileName(prefix, a) != OutputFileName(prefix, b)
  {
    var na, nb := OutputFileName(prefix, a), OutputFileName(prefix, b);
    if na == nb {
      assert na[|prefix|..|na| - |OutputExtension|] == nb[|prefix|..|nb| - |OutputExtension|];
    }
  }
}
