/** fix_ckb_locale.py: the same key rename over every scholar file, counting the files rewritten. */
module FixCkbLocale {
  import opened Text
  import opened FileStores
  import opened FixSearchIndex

  /** The files after a sweep over `paths`, and the paths rewritten, in order. */
  datatype Sweep = Sweep(files: map<string, string>, rewritten: seq<string>)

  /** What the loop leaves behind after visiting `paths` in order. */
  function Swept(m: map<string, string>, paths: seq<string>): (s: Sweep)
    requires forall p :: p in paths ==> p in m
    ensures s.files.Keys == m.Keys
    decreases |paths|
  {
    if paths == [] then Sweep(m, [])
    else
      var s := Swept(m, paths[..|paths| - 1]);
      var p := paths[|paths| - 1];
      if Contains(s.files[p], KuKey) then Sweep(s.files[p := RenameKu(s.files[p])], s.rewritten + [p])
      else s
  }

  /** The outcome for one file, independently of the visiting order. */
  function FixedContent(m: map<string, string>, paths: seq<string>, p: string): string
    requires p in m
  {
    if p in paths && Contains(m[p], KuKey) then RenameKu(m[p]) else m[p]
  }

  /**
   * A file is rewritten, once, exactly when it is listed and holds `"ku":`; it then has every
   * key renamed, and every other file is untouched.
   */
  lemma {:induction false} SweptFiles(m: map<string, string>, paths: seq<string>)
    requires forall p :: p in paths ==> p in m
    ensures forall p :: p in m ==> Swept(m, paths).files[p] == FixedContent(m, paths, p)
    ensures forall p :: p in Swept(m, paths).rewritten <==> p in paths && Contains(m[p], KuKey)
    ensures forall i, j :: 0 <= i < j < |Swept(m, paths).rewritten| ==>
              Swept(m, paths).rewritten[i] != Swept(m, paths).rewritten[j]
    decreases |paths|
  {
    if paths != [] {
      var init := paths[..|paths| - 1];
      var q := paths[|paths| - 1];
      assert paths == init + [q];
      assert forall p :: p in init ==> p in paths;
      SweptFiles(m, init);
      var s := Swept(m, init);
      if q in init && Contains(m[q], KuKey) {
        RenameRemovesKu(m[q]);
      }
      assert Contains(s.files[q], KuKey) <==> q !in init && Contains(m[q], KuKey);
    }
  }

  /** After the sweep no listed file holds `"ku":`, so a second sweep rewrites nothing. */
  lemma SecondSweepRewritesNothing(m: map<string, string>, paths: seq<string>)
    requires forall p :: p in paths ==> p in m
    ensures forall p :: p in paths ==> !Contains(Swept(m, paths).files[p], KuKey)
    ensures Swept(Swept(m, paths).files, paths).rewritten == []
  {
    SweptFiles(m, paths);
    var after := Swept(m, paths).files;
    forall p | p in paths ensures !Contains(after[p], KuKey) {
      if Contains(m[p], KuKey) {
        RenameRemovesKu(m[p]);
      }
    }
    SweptFiles(after, paths);
    if Swept(after, paths).rewritten != [] {
      assert Swept(after, paths).rewritten[0] in Swept(after, paths).rewritten;
    }
  }

  lemma SweptSnoc(m: map<string, string>, paths: seq<string>, i: nat)
    requires i < |paths| && forall p :: p in paths ==> p in m
    ensures var s := Swept(m, paths[..i]);
            var p := paths[i];
            Swept(m, paths[..i + 1]) ==
              if Contains(s.files[p], KuKey) then Sweep(s.files[p := RenameKu(s.files[p])], s.rewritten + [p])
              else s
  {
    assert paths[..i + 1][..i] == paths[..i];
  }

  /**
   * The script over the `.json` paths the directory listing returned (all of which exist):
   * `count` is the number of files rewritten.
   */
  method FixCkbLocale(store: FileStore, paths: seq<string>) returns (count: nat)
    requires forall p :: p in paths ==> p in store.files
    modifies store
    ensures store.files == Swept(old(store.files), paths).files
    ensures store.written == old(store.written) + Swept(old(store.files), paths).rewritten
    ensures count == |Swept(old(store.files), paths).rewritten|
  {
    ghost var m := store.files;
    count := 0;
    var i := 0;
    while i < |paths|
      invariant 0 <= i <= |paths|
      invariant store.files == Swept(m, paths[..i]).files
      invariant store.written == old(store.written) + Swept(m, paths[..i]).rewritten
      invariant count == |Swept(m, paths[..i]).rewritten|
    {
      var path := paths[i];
      SweptSnoc(m, paths, i);
      var content := store.files[path];
      if Contains(content, KuKey) {
        store.Write(path, RenameKu(content));
        count := count + 1;
      }
      i := i + 1;
    }
    assert paths[..|paths|] == paths;
  }
}
