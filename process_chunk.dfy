/**
 * scripts/process-chunk.php: one shard of the parallel PHP build. The script
 * checks its chunk index, lists every image file under the assets directory,
 * cuts the listing into `totalChunks` contiguous slices of `ceil(n / total)`
 * files and runs the slice through an `ImageProcessor` that shares the chunk
 * processor's own, fresh `SlugGenerator`. A thumbnail step that throws ends
 * the chunk's process with an error. The orchestrator concatenates the
 * chunks' items in chunk order and aborts on the first chunk that fails.
 */
module ProcessChunk {
  import opened Wrappers
  import opened Text
  import opened SlugAllocation
  import Catalogue
  import opened ImageProcessorPhp
  import opened ChunkSlices

  // ---------------------------------------------------------------- the listing

  /** The filter of `getAllImageFiles`: no `_thumbs` anywhere in the path and a valid lowercased extension. */
  predicate Listed(file: PhpFile) {
    !UnderThumbs(file.path) && ValidExtension(file.path)
  }

  /** A listed file is processed exactly when its image info can be read. */
  lemma ListedAccepted(file: PhpFile)
    requires Listed(file)
    ensures Accepts(file) <==> file.info.Some?
  {
  }

  /** `getAllImageFiles`: the walked files that pass the filter, in walk order. */
  method GetAllImageFiles(walk: seq<PhpFile>) returns (files: seq<PhpFile>)
    ensures files == Catalogue.Accepted(walk, Listed)
    ensures forall f :: f in files <==> f in walk && Listed(f)
  {
    files := [];
    var i := 0;
    while i < |walk|
      invariant 0 <= i <= |walk|
      invariant files == Catalogue.Accepted(walk[..i], Listed)
    {
      files := ListStep(walk, i, files);
      i := i + 1;
    }
    assert walk[..i] == walk;
    forall f ensures f in files <==> f in walk && Listed(f) {
      Catalogue.AcceptedMembers(walk, Listed, f);
    }
  }

  /** One callback of the listing walk: the `i`-th file is appended when it passes the filter. */
  method ListStep(walk: seq<PhpFile>, i: nat, files: seq<PhpFile>) returns (files': seq<PhpFile>)
    requires i < |walk| && files == Catalogue.Accepted(walk[..i], Listed)
    ensures files' == Catalogue.Accepted(walk[..i + 1], Listed)
  {
    Catalogue.AcceptedPrefixSnoc(walk, i, Listed);
    files' := files;
    if Listed(walk[i]) {
      files' := files' + [walk[i]];
    }
  }

  // ---------------------------------------------------------------- one chunk

  /** `ChunkProcessor`: its chunk index, the number of chunks and a slug generator of its own. */
  class ChunkProcessor {
    const assetsDir: string
    const slugGenerator: SlugGenerator
    const chunkIndex: int
    const totalChunks: nat

    /** `new ChunkProcessor($chunkIndex, $totalChunks)`; `assetsDir` is what `new Config()` reads. */
    constructor(assetsDir: string, chunkIndex: int, totalChunks: nat)
      ensures this.assetsDir == assetsDir && this.chunkIndex == chunkIndex && this.totalChunks == totalChunks
      ensures fresh(slugGenerator) && slugGenerator.counter == map[]
    {
      this.assetsDir := assetsDir;
      this.chunkIndex := chunkIndex;
      this.totalChunks := totalChunks;
      slugGenerator := new SlugGenerator();
    }

    /**
     * `processChunk`: lists the files, takes this chunk's slice and hands each of its files to
     * `processImageFile`, until one throws. With no chunks the size computation divides by zero.
     */
    method ProcessChunk(walk: seq<PhpFile>, metaFiles: map<string, MetaFile>) returns (r: Result<seq<Item>, string>)
      modifies slugGenerator
      ensures totalChunks == 0 ==> r == Failure("Division by zero") && slugGenerator.counter == old(slugGenerator.counter)
      ensures totalChunks > 0 ==>
        (r, slugGenerator.counter) ==
          ProcessImagesSpec(assetsDir, metaFiles, old(slugGenerator.counter), Chunk(Catalogue.Accepted(walk, Listed), totalChunks, chunkIndex))
    {
      var all := GetAllImageFiles(walk);
      if totalChunks == 0 {
        return Failure("Division by zero");
      }
      var chunk := Chunk(all, totalChunks, chunkIndex);
      ghost var counter := slugGenerator.counter;
      var processor := new ImageProcessor(assetsDir, slugGenerator);
      var items: seq<Item> := [];
      var i := 0;
      while i < |chunk|
        invariant 0 <= i <= |chunk|
        invariant (Success(items), slugGenerator.counter) == ProcessImagesSpec(assetsDir, metaFiles, counter, chunk[..i])
      {
        ProcessImagesNext(assetsDir, metaFiles, counter, chunk, i);
        var step := processor.ProcessImage(chunk[i], metaFiles, items);
        if step.Failure? {
          return step;
        }
        items := step.value;
        i := i + 1;
      }
      assert chunk[..i] == chunk;
      return Success(items);
    }
  }

  /**
   * A fresh processor's chunk writes its slice's items, with slugs counted from scratch; it fails
   * exactly when there are no chunks or a file of its slice makes the thumbnail step throw.
   */
  method RunChunk(assetsDir: string, chunkIndex: int, totalChunks: nat, walk: seq<PhpFile>,
                  metaFiles: map<string, MetaFile>) returns (r: Result<seq<Item>, string>)
    ensures r.Failure? <==>
      totalChunks == 0 || SomeThumbnailThrows(Chunk(Catalogue.Accepted(walk, Listed), totalChunks, chunkIndex))
    ensures totalChunks > 0 ==>
      r == ProcessImagesSpec(assetsDir, metaFiles, map[], Chunk(Catalogue.Accepted(walk, Listed), totalChunks, chunkIndex)).0
  {
    var processor := new ChunkProcessor(assetsDir, chunkIndex, totalChunks);
    r := processor.ProcessChunk(walk, metaFiles);
    if totalChunks > 0 {
      ProcessImagesFailsIff(assetsDir, metaFiles, map[], Chunk(Catalogue.Accepted(walk, Listed), totalChunks, chunkIndex));
    }
  }

  /**
   * The first processed file of every chunk keeps its bare slug base, in a chunk that
   * completes: no counter is carried between chunks.
   */
  lemma ChunkFirstSlugIsBase(assetsDir: string, metaFiles: map<string, MetaFile>, chunk: seq<PhpFile>)
    requires Catalogue.Accepted(chunk, Accepts) != []
    ensures var items := ProcessImagesSpec(assetsDir, metaFiles, map[], chunk).0;
      items.Success? ==>
        |items.value| == |Catalogue.Accepted(chunk, Accepts)| &&
        items.value[0].slug == SlugBaseOf(Catalogue.Accepted(chunk, Accepts)[0])
  {
    ProcessImagesItems(assetsDir, metaFiles, map[], chunk);
    var acc := Catalogue.Accepted(chunk, Accepts);
    var bases := Catalogue.Bases(acc, SlugBaseOf);
    AllocateAllSpec(map[], bases, 0);
    MakeItemFields(assetsDir, metaFiles, acc[0], AllocateAll(map[], bases).0[0]);
  }

  /**
   * Two files with the same name that land in chunks 1 and 2 are both given the bare base,
   * so the merged catalogue repeats a slug the shared generator would have kept distinct.
   * Each chunk completes exactly when its file's thumbnail step does not throw.
   */
  lemma ChunksRepeatSlugs(assetsDir: string, metaFiles: map<string, MetaFile>, a: PhpFile, b: PhpFile)
    requires Accepts(a) && Accepts(b) && SlugBaseOf(a) == SlugBaseOf(b)
    ensures var first := ProcessImagesSpec(assetsDir, metaFiles, map[], Chunk([a, b], 4, 1)).0;
      var second := ProcessImagesSpec(assetsDir, metaFiles, map[], Chunk([a, b], 4, 2)).0;
      && (first.Success? <==> ThumbnailError(a).None?)
      && (second.Success? <==> ThumbnailError(b).None?)
      && (first.Success? ==> |first.value| == 1 && first.value[0].slug == SlugBaseOf(a))
      && (second.Success? ==> |second.value| == 1 && second.value[0].slug == SlugBaseOf(a))
  {
    TwoFilesOneEach(a, b);
    Catalogue.AcceptedSingle(a, Accepts);
    Catalogue.AcceptedSingle(b, Accepts);
    ChunkFirstSlugIsBase(assetsDir, metaFiles, [a]);
    ChunkFirstSlugIsBase(assetsDir, metaFiles, [b]);
    SingleThrows(a);
    SingleThrows(b);
    ProcessImagesFailsIff(assetsDir, metaFiles, map[], [a]);
    ProcessImagesFailsIff(assetsDir, metaFiles, map[], [b]);
  }

  /** A one-file chunk of an accepted file throws exactly when that file's thumbnail step does. */
  lemma SingleThrows(a: PhpFile)
    requires Accepts(a)
    ensures SomeThumbnailThrows([a]) <==> ThumbnailError(a).Some?
  {
    if ThumbnailError(a).Some? {
      assert a in [a];
    }
  }

  // ---------------------------------------------------------------- merging

  /**
   * All chunks merged in chunk order: the merge completes exactly when no file of the listing
   * makes its thumbnail step throw, and then holds one item per processable file of the listing,
   * in listing order, each built with the slug its own chunk handed out (`ChunkSlugs`, counted
   * from scratch in every chunk) rather than the slug one shared generator would have given.
   */
  lemma MergeAllChunks(assetsDir: string, metaFiles: map<string, MetaFile>, listing: seq<PhpFile>, total: nat)
    requires total > 0
    ensures var m := Merge(ChunkRuns(listing, total, total, Accepts, SlugBaseOf, MakeFn(assetsDir, metaFiles)));
      var acc := Catalogue.Accepted(listing, Accepts);
      var slugs := ChunkSlugs(listing, total, total, Accepts, SlugBaseOf);
      && (m.Success? <==> !SomeThumbnailThrows(listing))
      && (m.Success? ==>
            && |m.value| == |acc| == |slugs|
            && forall j :: 0 <= j < |acc| ==> m.value[j] == MakeItem(assetsDir, metaFiles, acc[j], slugs[j]))
  {
    var make := MakeFn(assetsDir, metaFiles);
    forall i | 1 <= i <= total
      ensures Catalogue.Run(map[], Chunk(listing, total, i), Accepts, SlugBaseOf, make).0.Success? <==>
        !SomeThumbnailThrows(Chunk(listing, total, i))
    {
      ProcessImagesFailsIff(assetsDir, metaFiles, map[], Chunk(listing, total, i));
    }
    MergeChunkRunsIff(listing, total, total, Accepts, SlugBaseOf, make);
    ThrowsInSomeChunk(listing, total);
    if Merge(ChunkRuns(listing, total, total, Accepts, SlugBaseOf, make)).Success? {
      MergeChunkRuns(listing, total, total, Accepts, SlugBaseOf, make);
      ChunksCover(listing, total);
      var m := Merge(ChunkRuns(listing, total, total, Accepts, SlugBaseOf, make));
      var acc := Catalogue.Accepted(listing, Accepts);
      var slugs := ChunkSlugs(listing, total, total, Accepts, SlugBaseOf);
      forall j | 0 <= j < |acc| ensures m.value[j] == MakeItem(assetsDir, metaFiles, acc[j], slugs[j]) {
        MakeFnOf(assetsDir, metaFiles, acc[j], slugs[j]);
      }
    }
  }

  /** A file of the listing throws exactly when a file of one of its chunks does. */
  lemma ThrowsInSomeChunk(listing: seq<PhpFile>, total: nat)
    requires total > 0
    ensures SomeThumbnailThrows(listing) <==> exists i :: 1 <= i <= total && SomeThumbnailThrows(Chunk(listing, total, i))
  {
    ChunksCover(listing, total);
    if SomeThumbnailThrows(listing) {
      var f :| f in listing && Accepts(f) && ThumbnailError(f).Some?;
      InSomeChunk(listing, total, total, f);
      var i :| 1 <= i <= total && f in Chunk(listing, total, i);
      assert SomeThumbnailThrows(Chunk(listing, total, i));
    }
    if i :| 1 <= i <= total && SomeThumbnailThrows(Chunk(listing, total, i)) {
      var f :| f in Chunk(listing, total, i) && Accepts(f) && ThumbnailError(f).Some?;
      InSomeChunk(listing, total, total, f);
      assert f in listing;
    }
  }
}
