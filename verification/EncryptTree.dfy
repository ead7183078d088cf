/** The encrypt-or-skip pass of scripts/dts_encrypt.py over a tree of files. */
module EncryptTree {
  import opened Wrappers
  import opened Words
  import opened ChaCha20
  import opened LfxeFormat
  import opened BakedKey
  import opened LfxeDecrypt

  type Path = string
  type Files = map<Path, seq<Byte>>

  /** What the pass leaves of one file. */
  function Encrypted(data: seq<Byte>, key: seq<Byte>, keyId: nat, nonce: seq<Byte>): (r: seq<Byte>)
    requires Packable(key, keyId, nonce)
  {
    if HasMagic(data) then data else Container(data, key, keyId, nonce)
  }

  class Tree {
    var files: Files

    constructor (files: Files)
      ensures this.files == files
    {
      this.files := files;
    }
  }

  predicate Listed(paths: seq<Path>, nonces: seq<seq<Byte>>, files: Files) {
    |nonces| == |paths| && (forall p | p in paths :: p in files) && forall n | n in nonces :: |n| == NONCE_SIZE
  }

  /** The files after the pass over `paths`, with one fresh nonce for each. */
  function After(files: Files, paths: seq<Path>, nonces: seq<seq<Byte>>, key: seq<Byte>, keyId: nat): (r: Files)
    requires Listed(paths, nonces, files) && |key| == KEY_SIZE && keyId < 0x1_0000
    ensures r.Keys == files.Keys
  {
    if paths == [] then files else
      var n := |paths| - 1;
      assert Listed(paths[..n], nonces[..n], files);
      var before := After(files, paths[..n], nonces[..n], key, keyId);
      before[paths[n] := Encrypted(before[paths[n]], key, keyId, nonces[n])]
  }

  /** How many of `paths` have the magic. */
  function Magical(files: Files, paths: seq<Path>): (n: nat)
    requires forall p | p in paths :: p in files
    ensures n <= |paths|
  {
    if paths == [] then 0 else
      Magical(files, paths[..|paths| - 1]) + if HasMagic(files[paths[|paths| - 1]]) then 1 else 0
  }

  lemma NothingDone(files: Files, paths: seq<Path>, nonces: seq<seq<Byte>>, key: seq<Byte>, keyId: nat)
    requires paths == [] && nonces == [] && |key| == KEY_SIZE && keyId < 0x1_0000
    ensures Listed(paths, nonces, files) && After(files, paths, nonces, key, keyId) == files
  {
  }

  lemma ListedPrefix(files: Files, paths: seq<Path>, nonces: seq<seq<Byte>>, i: nat)
    requires Listed(paths, nonces, files) && i <= |paths|
    ensures |nonces| == |paths| && Listed(paths[..i], nonces[..i], files) && forall p | p in paths :: p in files
    ensures i < |paths| ==> paths[i] in files && |nonces[i]| == NONCE_SIZE
  {
    if i < |paths| { assert paths[i] in paths && nonces[i] in nonces; }
  }

  lemma OneMoreFile(files: Files, paths: seq<Path>, nonces: seq<seq<Byte>>, key: seq<Byte>, keyId: nat, i: nat)
    requires Listed(paths, nonces, files) && |key| == KEY_SIZE && keyId < 0x1_0000 && i < |paths|
    requires Listed(paths[..i], nonces[..i], files) && Listed(paths[..i + 1], nonces[..i + 1], files)
    ensures |nonces[i]| == NONCE_SIZE && paths[i] in files
    ensures var before := After(files, paths[..i], nonces[..i], key, keyId);
            After(files, paths[..i + 1], nonces[..i + 1], key, keyId)
            == before[paths[i] := Encrypted(before[paths[i]], key, keyId, nonces[i])]
  {
    hide Listed;
    ListedPrefix(files, paths, nonces, i);
    assert paths[..i + 1][..i] == paths[..i] && nonces[..i + 1][..i] == nonces[..i];
  }

  /** A file without the magic is missing from the count. */
  lemma {:induction false} OneWithout(files: Files, paths: seq<Path>, i: nat)
    requires (forall p | p in paths :: p in files) && i < |paths| && !HasMagic(files[paths[i]])
    ensures Magical(files, paths) < |paths|
  {
    hide HasMagic;
    if i < |paths| - 1 { OneWithout(files, paths[..|paths| - 1], i); }
  }

  /** No file is listed twice. */
  predicate Distinct(paths: seq<Path>) {
    forall i, j | 0 <= i < j < |paths| :: paths[i] != paths[j]
  }

  /** The pass has not touched a file that it has not come to. */
  lemma {:induction false} NotYetTouched(files: Files, paths: seq<Path>, nonces: seq<seq<Byte>>, key: seq<Byte>,
                                         keyId: nat, p: Path)
    requires Listed(paths, nonces, files) && |key| == KEY_SIZE && keyId < 0x1_0000 && p in files && p !in paths
    ensures After(files, paths, nonces, key, keyId)[p] == files[p]
  {
    hide Encrypted;
    if paths != [] {
      var n := |paths| - 1;
      assert Listed(paths[..n], nonces[..n], files);
      NotYetTouched(files, paths[..n], nonces[..n], key, keyId, p);
    }
  }

  lemma NextIsNew(paths: seq<Path>, i: nat)
    requires i < |paths| && Distinct(paths)
    ensures paths[i] !in paths[..i]
  {
  }

  lemma OneMoreMagical(files: Files, paths: seq<Path>, i: nat)
    requires i < |paths| && (forall p | p in paths :: p in files)
    ensures forall p | p in paths[..i] :: p in files
    ensures forall p | p in paths[..i + 1] :: p in files
    ensures Magical(files, paths[..i + 1]) == Magical(files, paths[..i]) + if HasMagic(files[paths[i]]) then 1 else 0
  {
    hide HasMagic;
    assert paths[..i + 1][..i] == paths[..i];
  }

  /** main's loop. `paths` are the files found, with the nonce that os.urandom gives for each. A key id that does
      not fit makes pack raise, at the first file it is called for. */
  method EncryptPass(tree: Tree, paths: seq<Path>, key: seq<Byte>, keyId: int, nonces: seq<seq<Byte>>, dryRun: bool)
    returns (raised: bool, enc: nat, skipped: nat)
    requires |key| == KEY_SIZE && Listed(paths, nonces, tree.files)
    modifies tree
    ensures dryRun ==> tree.files == old(tree.files) && skipped == Magical(tree.files, paths)
    ensures raised <==> !dryRun && !(0 <= keyId < 0x1_0000) && Magical(old(tree.files), paths) < |paths|
    ensures !dryRun && !(0 <= keyId < 0x1_0000) ==> tree.files == old(tree.files)
    ensures !dryRun && 0 <= keyId < 0x1_0000 ==> tree.files == After(old(tree.files), paths, nonces, key, keyId)
    ensures !raised ==> enc + skipped == |paths|
    ensures !raised && Distinct(paths) ==> skipped == Magical(old(tree.files), paths)
    ensures raised ==> skipped < |paths| && enc == 0 && !HasMagic(old(tree.files)[paths[skipped]])
                       && forall p | p in paths[..skipped] :: HasMagic(old(tree.files)[p])
  {
    hide Listed, After, Container, HasMagic, Magical, Distinct;
    ghost var was := tree.files;
    raised, enc, skipped := false, 0, 0;
    ListedPrefix(was, paths, nonces, 0);
    NoneMagical(was);
    if 0 <= keyId < 0x1_0000 { NothingDone(was, paths[..0], nonces[..0], key, keyId); }
    assert paths[..0] == [];
    for i := 0 to |paths|
      invariant |nonces| == |paths| && Listed(paths[..i], nonces[..i], was) && enc + skipped == i && !raised
      invariant forall p | p in paths[..i] :: p in was
      invariant if !dryRun && 0 <= keyId < 0x1_0000 then tree.files == After(was, paths[..i], nonces[..i], key, keyId)
                else tree.files == was && skipped == Magical(was, paths[..i])
      invariant Distinct(paths) ==> skipped == Magical(was, paths[..i])
      invariant !dryRun && !(0 <= keyId < 0x1_0000) ==> skipped == i && forall p | p in paths[..i] :: HasMagic(was[p])
    {
      ListedPrefix(was, paths, nonces, i);
      ListedPrefix(was, paths, nonces, i + 1);
      OneMoreMagical(was, paths, i);
      if 0 <= keyId < 0x1_0000 {
        OneMoreFile(was, paths, nonces, key, keyId, i);
        if Distinct(paths) {
          NextIsNew(paths, i);
          NotYetTouched(was, paths[..i], nonces[..i], key, keyId, paths[i]);
        }
      }
      var data := tree.files[paths[i]];
      if HasMagic(data) {
        skipped := skipped + 1;
        continue;
      }
      if !dryRun {
        var container := Pack(data, key, keyId, nonces[i]);
        if container.None? {
          OneWithout(was, paths, i);
          return true, enc, skipped;
        }
        tree.files := tree.files[paths[i] := container.value];
      }
      enc := enc + 1;
    }
    assert paths[..|paths|] == paths && nonces[..|paths|] == nonces;
  }

  lemma NoneMagical(files: Files)
    ensures Magical(files, []) == 0
  {
  }

  // ---- what the pass achieves --------------------------------------------------------------------------

  /** What one pass does to a file: nothing unless it is listed and lacks the magic, in which case it is packed
      under one of the nonces. */
  ghost predicate Treated(before: seq<Byte>, after: seq<Byte>, listed: bool, nonces: seq<seq<Byte>>, key: seq<Byte>,
                          keyId: nat)
    requires |key| == KEY_SIZE && keyId < 0x1_0000 && forall n | n in nonces :: |n| == NONCE_SIZE
  {
    if !listed || HasMagic(before) then after == before
    else exists n | n in nonces :: after == Container(before, key, keyId, n)
  }

  lemma {:induction false} PassTreats(files: Files, paths: seq<Path>, nonces: seq<seq<Byte>>, key: seq<Byte>,
                                      keyId: nat, p: Path)
    requires Listed(paths, nonces, files) && |key| == KEY_SIZE && keyId < 0x1_0000 && p in files
    ensures Treated(files[p], After(files, paths, nonces, key, keyId)[p], p in paths, nonces, key, keyId)
    ensures p in paths ==> HasMagic(After(files, paths, nonces, key, keyId)[p])
  {
    hide Container, HasMagic;
    if paths != [] {
      var n := |paths| - 1;
      assert Listed(paths[..n], nonces[..n], files);
      PassTreats(files, paths[..n], nonces[..n], key, keyId, p);
      assert nonces[n] in nonces;
      var before := After(files, paths[..n], nonces[..n], key, keyId);
      if p == paths[n] {
        ContainerHasMagic(before[p], key, keyId, nonces[n]);
      } else {
        assert p in paths <==> p in paths[..n];
      }
    }
  }

  lemma ContainerHasMagic(data: seq<Byte>, key: seq<Byte>, keyId: nat, nonce: seq<Byte>)
    requires Packable(key, keyId, nonce)
    ensures HasMagic(Container(data, key, keyId, nonce))
  {
    HeaderReadsBack(data, key, keyId, nonce);
  }

  /** Every listed file without the magic is, after the pass, a container that a client holding the key opens
      to the original bytes; every other file is as it was. */
  lemma PassPreservesMeaning(files: Files, paths: seq<Path>, nonces: seq<seq<Byte>>, key: seq<Byte>, p: Path,
                             keys: BakedKeyProvider)
    requires Listed(paths, nonces, files) && |key| == KEY_SIZE && p in files
    requires keys.data.Valid() && keys.KeyFor(0) == Some(key)
    ensures var after := After(files, paths, nonces, key, 0)[p];
            if p in paths && !HasMagic(files[p]) then Verdict(after, keys) == Ok && PlainOf(after, keys) == files[p]
            else after == files[p]
  {
    hide Container, HasMagic, Verdict, PlainOf, After, BakedKeyProvider.KeyFor;
    PassTreats(files, paths, nonces, key, 0, p);
    if p in paths && !HasMagic(files[p]) {
      var n :| n in nonces && After(files, paths, nonces, key, 0)[p] == Container(files[p], key, 0, n);
      ContainerOpens(files[p], key, 0, n, keys);
    }
  }

  /** When all listed files have the magic, the pass changes nothing and skips them all, whatever the key. */
  lemma {:induction false} AllSkipped(files: Files, paths: seq<Path>, nonces: seq<seq<Byte>>, key: seq<Byte>, keyId: nat)
    requires Listed(paths, nonces, files) && |key| == KEY_SIZE && keyId < 0x1_0000
    requires forall p | p in paths :: HasMagic(files[p])
    ensures After(files, paths, nonces, key, keyId) == files && Magical(files, paths) == |paths|
  {
    hide Container, HasMagic;
    if paths != [] {
      var n := |paths| - 1;
      assert paths[n] in paths;
      AllSkipped(files, paths[..n], nonces[..n], key, keyId);
    }
  }

  /** A second pass over the same tree changes nothing, with any nonces, key and key id, and would even in a
      dry run skip every file. */
  lemma SecondPassIsIdle(files: Files, paths: seq<Path>, nonces: seq<seq<Byte>>, key: seq<Byte>, keyId: nat,
                         nonces': seq<seq<Byte>>, key': seq<Byte>, keyId': nat)
    requires Listed(paths, nonces, files) && |key| == KEY_SIZE && keyId < 0x1_0000
    requires Listed(paths, nonces', files) && |key'| == KEY_SIZE && keyId' < 0x1_0000
    ensures var once := After(files, paths, nonces, key, keyId);
            After(once, paths, nonces', key', keyId') == once && Magical(once, paths) == |paths|
  {
    hide After, HasMagic;
    var once := After(files, paths, nonces, key, keyId);
    forall p | p in paths
      ensures HasMagic(once[p])
    {
      PassTreats(files, paths, nonces, key, keyId, p);
    }
    AllSkipped(once, paths, nonces', key', keyId');
  }
}
