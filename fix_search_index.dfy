/**
 * A directory of text files, as the two locale-fix scripts see it: the contents of every
 * existing file, and the log of writes in the order they happened.
 */
module FileStores {
  class FileStore {
    var files: map<string, string>
    var written: seq<string>

    constructor (files: map<string, string>)
      ensures this.files == files && written == []
    {
      this.files := files;
      written := [];
    }

    /** `open(path, "w").write(content)`. */
    method Write(path: string, content: string)
      modifies this
      ensures files == old(files)[path := content]
      ensures written == old(written) + [path]
    {
      files := files[path := content];
      written := written + [path];
    }
  }
}

/** fix_search_index.py: rename the Kurdish locale key `"ku":` to `"ckb":` in the search index. */
module FixSearchIndex {
  import opened Text
  import opened FileStores

  const SearchIndexPath: string := "public/data/search-index.json"
  const KuKey: string := "\"ku\":"
  const CkbKey: string := "\"ckb\":"

  /** `content.replace('"ku":', '"ckb":')`. */
  function RenameKu(content: string): string
  {
    ReplaceAll(content, KuKey, CkbKey)
  }

  /** The message the script prints. */
  datatype Outcome = NotFound | NoChanges | Updated

  /** `"ckb":` cannot overlap `"ku":` in a way that would rebuild the old key. */
  lemma KeysDoNotOverlap()
    ensures forall k :: 0 <= k < |CkbKey| ==> !Overlaps(CkbKey[k..], KuKey)
    ensures forall k :: 1 <= k < |KuKey| ==> !Overlaps(KuKey[k..], CkbKey)
  {
    forall k | 0 <= k < |CkbKey| ensures !Overlaps(CkbKey[k..], KuKey) {
      if k == 4 {
        assert CkbKey[k..][1] != KuKey[1];
      } else {
        assert CkbKey[k..][0] != KuKey[0] || CkbKey[k..][1] != KuKey[1];
      }
    }
    forall k | 1 <= k < |KuKey| ensures !Overlaps(KuKey[k..], CkbKey) {
      if k == 3 {
        assert KuKey[k..][1] != CkbKey[1];
      } else {
        assert KuKey[k..][0] != CkbKey[0];
      }
    }
  }

  /** After the rename no `"ku":` is left. */
  lemma RenameRemovesKu(content: string)
    ensures !Contains(RenameKu(content), KuKey)
  {
    KeysDoNotOverlap();
    ReplaceAllRemoves(content, KuKey, CkbKey);
  }

  /** Renaming is idempotent. */
  lemma RenameIdempotent(content: string)
    ensures RenameKu(RenameKu(content)) == RenameKu(content)
  {
    RenameRemovesKu(content);
    ReplaceAbsent(RenameKu(content), KuKey, CkbKey);
  }

  /** The script: the file is written, with every key renamed, only when it holds the old key. */
  method FixSearchIndex(store: FileStore) returns (outcome: Outcome)
    modifies store
    ensures SearchIndexPath !in old(store.files) ==>
              outcome == NotFound && store.files == old(store.files) && store.written == old(store.written)
    ensures SearchIndexPath in old(store.files) && !Contains(old(store.files)[SearchIndexPath], KuKey) ==>
              outcome == NoChanges && store.files == old(store.files) && store.written == old(store.written)
    ensures SearchIndexPath in old(store.files) && Contains(old(store.files)[SearchIndexPath], KuKey) ==>
              && outcome == Updated
              && store.files == old(store.files)[SearchIndexPath := RenameKu(old(store.files)[SearchIndexPath])]
              && store.written == old(store.written) + [SearchIndexPath]
  {
    if SearchIndexPath !in store.files {
      return NotFound;
    }
    var content := store.files[SearchIndexPath];
    if Contains(content, KuKey) {
      store.Write(SearchIndexPath, RenameKu(content));
      outcome := Updated;
    } else {
      outcome := NoChanges;
    }
  }

  /** A second run finds nothing to change and writes nothing. */
  method SecondRunWritesNothing(store: FileStore) returns (first: Outcome, second: Outcome)
    modifies store
    ensures second != Updated
    ensures store.written == old(store.written) + (if first == Updated then [SearchIndexPath] else [])
  {
    first := FixSearchIndex(store);
    if SearchIndexPath in store.files {
      RenameRemovesKu(old(store.files)[SearchIndexPath]);
    }
    second := FixSearchIndex(store);
  }
}
