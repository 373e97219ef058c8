/**
 * The id counter, the id assignment over the item tree and the image-name
 * and child-folder logic of ContentManagement/PersistenceManager.cs.
 *
 * The static class is one `PersistenceManager` instance. File-system work
 * is not performed: the operations that would touch files return the
 * `FileAction`s they would take, in order. `Guid.NewGuid()` and
 * `Path.GetExtension` are parameters.
 */
module Persistence {
  import opened Wrappers
  import opened Chars
  import Hyphenation

  /** string.IsNullOrEmpty; `None` is null. */
  predicate IsNullOrEmpty(s: Option<string>)
  {
    s.None? || s.value == []
  }

  /**
   * What a trimming property setter stores: null for null, the empty string
   * for a blank value, and otherwise the value from its first to its last
   * character that is not white space; trimming that again changes nothing.
   */
  function Trimmed(v: Option<string>): (r: Option<string>)
    ensures v.None? <==> r.None?
    ensures v.Some? && IsBlank(v.value) ==> r == Some([])
    ensures v.Some? && !IsBlank(v.value) ==>
      var k, m := SkipStart(v.value, WhiteSpace), SkipEnd(v.value, WhiteSpace);
      k < m && r == Some(v.value[k..m])
    ensures r.Some? ==> Trim(r.value) == r.value
  {
    match v
    case None => None
    case Some(s) =>
      StripCases(s, WhiteSpace);
      TrimEmpty(s);
      StripIdempotent(s, WhiteSpace);
      Some(Trim(s))
  }

  /** Setting a property to the value read from it changes nothing. */
  lemma TrimmedIdempotent(v: Option<string>)
    ensures Trimmed(Trimmed(v)) == Trimmed(v)
  {
    if v.Some? {
      StripIdempotent(v.value, WhiteSpace);
    }
  }

  /** What went wrong, where the source throws. */
  datatype Failure =
    | NullReference        // NullReferenceException: the item has no parent
    | SubstringOutOfRange  // ArgumentOutOfRangeException: Substring(0, -1)

  /** A file-system operation the source performs; folders and names are relative to the images folder. */
  datatype FileAction =
    | MoveFile(from: string, folder: string, name: string)
    | MoveFolder(from: string, to: string)
    | DeleteFile(path: string)
    | CopyFile(source: string, folder: string, name: string)
    | CreateFolder(name: string)

  class PortfolioItem {
    var id: int
    var image: Option<string>
    var description: Option<string>
    var parent: PreviewItem?

    constructor (image: Option<string>, description: Option<string>)
      ensures id == 0 && parent == null
      ensures this.image == Trimmed(image) && this.description == Trimmed(description)
    {
      id := 0;
      parent := null;
      this.image := Trimmed(image);
      this.description := Trimmed(description);
    }
  }

  class PreviewItem {
    var id: int
    var title: Option<string>
    var image: Option<string>
    const portfolioItems: seq<PortfolioItem>

    constructor (title: Option<string>, image: Option<string>, portfolioItems: seq<PortfolioItem>)
      ensures id == 0 && this.portfolioItems == portfolioItems
      ensures this.title == Trimmed(title) && this.image == Trimmed(image)
    {
      id := 0;
      this.title := Trimmed(title);
      this.image := Trimmed(image);
      this.portfolioItems := portfolioItems;
    }
  }

  /** No portfolio item appears twice in `items`. */
  ghost predicate DistinctItems(items: seq<PortfolioItem>)
  {
    forall j, l :: 0 <= j < l < |items| ==> items[j] != items[l]
  }

  /** The tree read from the items file: every preview item and every portfolio item is its own object. */
  ghost predicate Distinct(previews: seq<PreviewItem>)
  {
    && (forall i, k :: 0 <= i < k < |previews| ==> previews[i] != previews[k])
    && (forall i, j, k, l ::
          0 <= i < |previews| && 0 <= j < |previews[i].portfolioItems| &&
          0 <= k < |previews| && 0 <= l < |previews[k].portfolioItems| &&
          previews[i].portfolioItems[j] == previews[k].portfolioItems[l]
          ==> i == k && j == l)
  }

  /** The portfolio items of every preview item. */
  function Children(previews: seq<PreviewItem>): set<PortfolioItem>
  {
    set i, j | 0 <= i < |previews| && 0 <= j < |previews[i].portfolioItems| :: previews[i].portfolioItems[j]
  }

  /** The portfolio items of preview item `i` are among the children, and no two of them are the same object. */
  lemma ChildrenOf(previews: seq<PreviewItem>, i: nat)
    requires i < |previews| && Distinct(previews)
    ensures forall c :: c in previews[i].portfolioItems ==> c in Children(previews)
    ensures DistinctItems(previews[i].portfolioItems)
  {
    forall c | c in previews[i].portfolioItems
      ensures c in Children(previews)
    {
      var j :| 0 <= j < |previews[i].portfolioItems| && previews[i].portfolioItems[j] == c;
    }
  }

  /** How many ids the items before preview item `i` take: one per preview item and one per portfolio item. */
  function Slot(previews: seq<PreviewItem>, i: nat): nat
    requires i <= |previews|
  {
    if i == 0 then 0 else Slot(previews, i - 1) + 1 + |previews[i - 1].portfolioItems|
  }

  /**
   * Where, counting from one, the assignment reaches preview item `i`
   * (`j == 0`) or its portfolio item `j - 1`.
   */
  function Position(previews: seq<PreviewItem>, i: nat, j: nat): nat
    requires i < |previews|
  {
    Slot(previews, i) + 1 + j
  }

  lemma {:induction false} SlotGrows(previews: seq<PreviewItem>, i: nat, k: nat)
    requires i < k <= |previews|
    ensures Slot(previews, i) + 1 + |previews[i].portfolioItems| <= Slot(previews, k)
    decreases k - i
  {
    if k > i + 1 {
      SlotGrows(previews, i, k - 1);
    }
  }

  /**
   * The positions the assignment gives out are all different and lie
   * between 1 and the total it takes, so every item gets an id of its own,
   * above every id handed out before.
   */
  lemma PositionsDistinct(previews: seq<PreviewItem>, i: nat, j: nat, k: nat, l: nat)
    requires i < |previews| && j <= |previews[i].portfolioItems|
    requires k < |previews| && l <= |previews[k].portfolioItems|
    ensures 1 <= Position(previews, i, j) <= Slot(previews, |previews|)
    ensures Position(previews, i, j) == Position(previews, k, l) ==> i == k && j == l
  {
    SlotGrows(previews, i, |previews|);
    if i < k {
      SlotGrows(previews, i, k);
    } else if k < i {
      SlotGrows(previews, k, i);
    }
  }

  /** Preview item `k` and its portfolio items hold the ids the assignment gives them, counting on from `base`. */
  ghost predicate Assigned(previews: seq<PreviewItem>, k: nat, base: int)
    requires k < |previews|
    reads previews[k], previews[k].portfolioItems
  {
    var p := previews[k];
    && p.id == base + Position(previews, k, 0)
    && forall j :: 0 <= j < |p.portfolioItems| ==>
         p.portfolioItems[j].id == base + Position(previews, k, j + 1) && p.portfolioItems[j].parent == p
  }

  class PersistenceManager {
    /** `_id`: the last id handed out. */
    var lastId: int

    constructor ()
      ensures lastId == 0
    {
      lastId := 0;
    }

    /** NextId: pre-increments the counter and returns the new value. */
    method NextId() returns (id: int)
      modifies this`lastId
      ensures id == old(lastId) + 1 && lastId == id
    {
      lastId := lastId + 1;
      id := lastId;
    }

    /**
     * AssignImageOwnerIds: every preview item, then each of its portfolio
     * items, takes the next id in turn; each portfolio item's parent
     * becomes its preview item. The frame names the only fields that
     * change: the counter, the ids and the parents.
     */
    method AssignImageOwnerIds(previews: seq<PreviewItem>)
      requires Distinct(previews)
      modifies this`lastId, previews`id, Children(previews)`id, Children(previews)`parent
      ensures lastId == old(lastId) + Slot(previews, |previews|)
      ensures forall i {:trigger previews[i].id} :: 0 <= i < |previews| ==>
        previews[i].id == old(lastId) + Position(previews, i, 0)
      ensures forall i, j {:trigger previews[i].portfolioItems[j].id} ::
        0 <= i < |previews| && 0 <= j < |previews[i].portfolioItems| ==>
        previews[i].portfolioItems[j].id == old(lastId) + Position(previews, i, j + 1)
      ensures forall i, j :: 0 <= i < |previews| && 0 <= j < |previews[i].portfolioItems| ==>
        previews[i].portfolioItems[j].parent == previews[i]
    {
      ghost var base := lastId;
      for i := 0 to |previews|
        invariant lastId == base + Slot(previews, i)
        invariant forall k :: 0 <= k < i ==> Assigned(previews, k, base)
      {
        ChildrenOf(previews, i);
        AssignNext(previews, i, base);
      }
      forall i | 0 <= i < |previews|
        ensures previews[i].id == base + Position(previews, i, 0)
        ensures forall j :: 0 <= j < |previews[i].portfolioItems| ==>
          previews[i].portfolioItems[j].id == base + Position(previews, i, j + 1) && previews[i].portfolioItems[j].parent == previews[i]
      {
        assert Assigned(previews, i, base);
      }
    }

    /** One turn of the outer loop, in terms of the whole tree: preview item `i` and its portfolio items take the next ids. */
    method AssignNext(previews: seq<PreviewItem>, i: nat, ghost base: int)
      requires Distinct(previews) && i < |previews|
      requires lastId == base + Slot(previews, i)
      requires forall k :: 0 <= k < i ==> Assigned(previews, k, base)
      modifies this`lastId, {previews[i]}`id, (previews[i].portfolioItems)`id, (previews[i].portfolioItems)`parent
      ensures lastId == base + Slot(previews, i + 1)
      ensures forall k :: 0 <= k <= i ==> Assigned(previews, k, base)
    {
      ChildrenOf(previews, i);
      AssignFamily(previews[i]);
    }

    /** One turn of the outer loop: the preview item, then each of its portfolio items, takes the next id. */
    method AssignFamily(p: PreviewItem)
      requires DistinctItems(p.portfolioItems)
      modifies this`lastId, p`id, p.portfolioItems`id, p.portfolioItems`parent
      ensures lastId == old(lastId) + 1 + |p.portfolioItems|
      ensures p.id == old(lastId) + 1
      ensures forall j :: 0 <= j < |p.portfolioItems| ==>
        p.portfolioItems[j].id == old(lastId) + 2 + j && p.portfolioItems[j].parent == p
    {
      var id := NextId();
      p.id := id;
      for j := 0 to |p.portfolioItems|
        invariant lastId == old(lastId) + 1 + j
        invariant p.id == old(lastId) + 1
        invariant forall l :: 0 <= l < j ==>
          p.portfolioItems[l].id == old(lastId) + 2 + l && p.portfolioItems[l].parent == p
      {
        var c := p.portfolioItems[j];
        c.parent := p;
        id := NextId();
        c.id := id;
      }
    }
  }

  // ---------------------------------------------------------------------------
  // Image names and child folders

  /** CreateImageName: the file name, inside the subfolder when there is one. */
  function CreateImageName(subfolder: Option<string>, fileName: string): (r: string)
    ensures IsNullOrEmpty(subfolder) ==> r == fileName
    ensures !IsNullOrEmpty(subfolder) ==>
      var k := |subfolder.value|;
      |r| == k + 1 + |fileName| && r[..k] == subfolder.value && r[k] == '/' && r[k + 1..] == fileName
  {
    if IsNullOrEmpty(subfolder) then fileName else subfolder.value + "/" + fileName
  }

  /** `image.Substring(0, image.IndexOf('/'))`: the folder part of an image name. */
  function FolderOf(image: string): (r: Result<string, Failure>)
    ensures r.Err? <==> '/' !in image
    ensures r.Ok? ==> '/' !in r.value && |r.value| < |image| && image[..|r.value|] == r.value && image[|r.value|] == '/'
  {
    var k := IndexOf(image, '/');
    if k == -1 then Err(SubstringOutOfRange) else Ok(image[..k])
  }

  /** An image named into a subfolder that has no '/' of its own gives that subfolder back. */
  lemma FolderOfImageName(subfolder: string, fileName: string)
    requires subfolder != [] && '/' !in subfolder
    ensures FolderOf(CreateImageName(Some(subfolder), fileName)) == Ok(subfolder)
  {
    var image := subfolder + "/" + fileName;
    assert image[|subfolder|] == '/';
    assert image[..|subfolder|] == subfolder;
  }

  /** The image of the first of `items` that has one. */
  function FirstImage(items: seq<PortfolioItem>): (r: Option<string>)
    reads items
    ensures r.None? <==> forall j :: 0 <= j < |items| ==> IsNullOrEmpty(items[j].image)
    ensures r.Some? ==> r.value != [] && exists j :: 0 <= j < |items| && items[j].image == r &&
                                                     forall k :: 0 <= k < j ==> IsNullOrEmpty(items[k].image)
  {
    if items == [] then None
    else if !IsNullOrEmpty(items[0].image) then items[0].image
    else
      var r := FirstImage(items[1..]);
      assert r.Some? ==> exists j :: 1 <= j < |items| && items[j].image == r &&
                                    forall k :: 0 <= k < j ==> IsNullOrEmpty(items[k].image) by {
        if r.Some? {
          var j :| 0 <= j < |items[1..]| && items[1..][j].image == r &&
            forall k :: 0 <= k < j ==> IsNullOrEmpty(items[1..][k].image);
          assert items[j + 1].image == r;
          assert forall k :: 1 <= k < j + 1 ==> IsNullOrEmpty(items[k].image) by {
            forall k | 1 <= k < j + 1 ensures IsNullOrEmpty(items[k].image) {
              assert items[k] == items[1..][k - 1];
            }
          }
        }
      }
      r
  }

  /**
   * EvaluateChildFolderName: the folder of the first portfolio item that
   * has an image, or null when none has one. A missing preview item, or
   * an image name without '/', makes it throw.
   */
  function EvaluateChildFolderName(p: PreviewItem?): (r: Result<Option<string>, Failure>)
    reads if p == null then [] else p.portfolioItems
    ensures p == null ==> r == Err(NullReference)
    ensures p != null ==> match FirstImage(p.portfolioItems)
      case None => r == Ok(None)
      case Some(image) => (r.Err? <==> '/' !in image) && (r.Ok? ==> r.value.Some? && FolderOf(image) == Ok(r.value.value))
  {
    if p == null then Err(NullReference) else ChildFolder(p.portfolioItems)
  }

  /** EvaluateChildFolderName once the preview item is known to be there. */
  function ChildFolder(items: seq<PortfolioItem>): Result<Option<string>, Failure>
    reads items
  {
    match FirstImage(items)
    case None => Ok(None)
    case Some(image) =>
      match FolderOf(image)
      case Err(e) => Err(e)
      case Ok(folder) => Ok(Some(folder))
  }

  /**
   * CreateFileNameWithoutExtension and CreateChildFolderName: a fresh
   * lower-case Guid when there is no title or description, and otherwise
   * its ToHyphenCase form: lower-case words of the text's own letters and
   * digits joined by single hyphens, led by the text's first character when
   * that is neither a letter nor a digit.
   */
  function FileStem(text: Option<string>, guid: string): (r: string)
    ensures IsNullOrEmpty(text) ==> r == guid
    ensures !IsNullOrEmpty(text) ==>
      && Hyphenation.Keep(r) == LowerAll(Hyphenation.Keep(text.value))
      && (r != [] ==> IsLetterOrDigit(r[0]) || r[0] == text.value[0])
  {
    if IsNullOrEmpty(text) then guid
    else
      Hyphenation.HyphenCaseKeeps(text.value);
      Hyphenation.LeadingCharacter(text.value);
      Hyphenation.HyphenCase(text.value)
  }

  /** Past its first character a stem drawn from a title holds only letters, digits and single hyphens, none of them capitals. */
  lemma FileStemShape(text: Option<string>, guid: string)
    requires !IsNullOrEmpty(text)
    ensures Hyphenation.Hyphenated(FileStem(text, guid))
    ensures forall i :: 0 <= i < |FileStem(text, guid)| ==> !IsUpper(FileStem(text, guid)[i])
  {
    Hyphenation.HyphenCaseShape(text.value);
  }

  /** A '/' in a stem drawn from a title can only be its first character, copied from a title that starts with one. */
  lemma FileStemSlash(text: Option<string>, guid: string)
    requires '/' !in guid
    ensures forall i :: 0 <= i < |FileStem(text, guid)| && FileStem(text, guid)[i] == '/' ==>
      i == 0 && text.Some? && text.value != [] && text.value[0] == '/'
  {
    if !IsNullOrEmpty(text) {
      Hyphenation.SlashOnlyFirst(text.value);
    }
  }

  /**
   * The title "/abc" gives the stem "/-abc", and an image named into a
   * folder of that name reads back as being in the folder "".
   */
  lemma SlashTitle(guid: string, name: string)
    ensures FileStem(Some("/abc"), guid) == "/-abc"
    ensures FolderOf(CreateImageName(Some("/-abc"), name)) == Ok("")
  {
    Hyphenation.LeadingSeparatorKept("/abc");
    assert CreateImageName(Some("/-abc"), name)[0] == '/';
  }

  // ---------------------------------------------------------------------------
  // Renaming

  /** `pattern` occurs in `s` at `i`. */
  predicate At(s: string, pattern: string, i: nat)
  {
    i + |pattern| <= |s| && s[i..i + |pattern|] == pattern
  }

  /** `s` contains `pattern` somewhere. */
  ghost predicate Contains(s: string, pattern: string)
  {
    exists i: nat :: At(s, pattern, i)
  }

  /** What the tail of a string contains, the string contains. */
  lemma ContainsTail(s: string, pattern: string)
    requires s != [] && Contains(s[1..], pattern)
    ensures Contains(s, pattern)
  {
    var i: nat :| At(s[1..], pattern, i);
    assert s[1..][i..i + |pattern|] == s[i + 1..i + 1 + |pattern|];
    assert At(s, pattern, i + 1);
  }

  /** string.Replace: every occurrence of `pattern`, scanning left to right, replaced. */
  function Replace(s: string, pattern: string, replacement: string): string
    requires pattern != []
    decreases |s|
  {
    if |s| < |pattern| then s
    else if s[..|pattern|] == pattern then replacement + Replace(s[|pattern|..], pattern, replacement)
    else [s[0]] + Replace(s[1..], pattern, replacement)
  }

  /** A string without the pattern is left as it is. */
  lemma {:induction false} ReplaceAbsent(s: string, pattern: string, replacement: string)
    requires pattern != [] && !Contains(s, pattern)
    ensures Replace(s, pattern, replacement) == s
    decreases |s|
  {
    if |s| >= |pattern| {
      assert !At(s, pattern, 0);
      assert s[0..|pattern|] == s[..|pattern|];
      if Contains(s[1..], pattern) {
        ContainsTail(s, pattern);
      }
      ReplaceAbsent(s[1..], pattern, replacement);
    }
  }

  /**
   * A child image in the old folder moves to the new folder: with the
   * folder name followed by '/' occurring only at its start, the rewrite
   * replaces just that occurrence.
   */
  lemma ReplaceFolder(oldFolder: string, newFolder: string, rest: string)
    requires !Contains(rest, oldFolder + "/")
    ensures Replace(oldFolder + "/" + rest, oldFolder + "/", newFolder + "/") == newFolder + "/" + rest
  {
    var pattern := oldFolder + "/";
    var s := pattern + rest;
    assert s[..|pattern|] == pattern && s[|pattern|..] == rest;
    ReplaceAbsent(rest, pattern, newFolder + "/");
    assert oldFolder + "/" + rest == s;
  }

  /** A child image as the rename loop leaves it: non-empty images rewritten through the trimming setter. */
  function RenamedChild(image: Option<string>, oldValue: string, newValue: string): Option<string>
  {
    if IsNullOrEmpty(image) then image else Trimmed(Some(Replace(image.value, oldValue + "/", newValue + "/")))
  }

  /**
   * After a rename, a child image that was in the old folder evaluates to
   * the new folder.
   */
  lemma RenamedChildFolder(oldValue: string, newValue: string, rest: string)
    requires newValue != [] && '/' !in newValue && !IsWhiteSpace(newValue[0])
    requires rest != [] ==> !IsWhiteSpace(rest[|rest| - 1])
    requires !Contains(rest, oldValue + "/")
    ensures RenamedChild(Some(oldValue + "/" + rest), oldValue, newValue) == Some(newValue + "/" + rest)
    ensures FolderOf(newValue + "/" + rest) == Ok(newValue)
  {
    ReplaceFolder(oldValue, newValue, rest);
    var t := newValue + "/" + rest;
    assert t[0] == newValue[0];
    assert t[|t| - 1] == if rest == [] then '/' else rest[|rest| - 1];
    StripIs(t, WhiteSpace, 0, |t|);
    assert t[0..|t|] == t;
    FolderOfImageName(newValue, rest);
  }

  /** The rename loop of RenamePreviewItemImage: each child image with a value is rewritten, the others are left alone. */
  method RenameChildImages(items: seq<PortfolioItem>, oldValue: string, newValue: string)
    requires DistinctItems(items)
    modifies items
    ensures forall j :: 0 <= j < |items| ==> items[j].image == RenamedChild(old(items[j].image), oldValue, newValue)
    ensures forall j :: 0 <= j < |items| ==> items[j].id == old(items[j].id) && items[j].description == old(items[j].description) && items[j].parent == old(items[j].parent)
  {
    for j := 0 to |items|
      invariant forall l :: 0 <= l < j ==> items[l].image == RenamedChild(old(items[l].image), oldValue, newValue)
      invariant forall l :: j <= l < |items| ==> items[l].image == old(items[l].image)
      invariant forall l :: 0 <= l < |items| ==> items[l].id == old(items[l].id) && items[l].description == old(items[l].description) && items[l].parent == old(items[l].parent)
    {
      var c := items[j];
      if IsNullOrEmpty(c.image) {
        continue;
      }
      c.image := Trimmed(Some(Replace(c.image.value, oldValue + "/", newValue + "/")));
    }
  }

  /**
   * The second half of RenamePreviewItemImage: when a portfolio item has an
   * image, the child folder is renamed after the title and every child
   * image is rewritten into it. `folderGuid` stands for the Guid.NewGuid()
   * call of CreateChildFolderName.
   */
  method RenameChildFolder(items: seq<PortfolioItem>, title: Option<string>, folderGuid: string)
    returns (r: Result<seq<FileAction>, Failure>)
    requires DistinctItems(items)
    modifies items
    ensures forall j :: 0 <= j < |items| ==> items[j].id == old(items[j].id) && items[j].description == old(items[j].description) && items[j].parent == old(items[j].parent)
    ensures
      var folder := old(ChildFolder(items));
      && (items == [] ==> r == Ok([]))
      && (items != [] && folder.Err? ==> r == Err(folder.error))
      && (items == [] || folder.Err? || IsNullOrEmpty(folder.value) ==>
            forall j :: 0 <= j < |items| ==> items[j].image == old(items[j].image))
      && (items != [] && folder.Ok? && IsNullOrEmpty(folder.value) ==> r == Ok([]))
      && (items != [] && folder.Ok? && !IsNullOrEmpty(folder.value) ==>
            var newValue := FileStem(title, folderGuid);
            && r == Ok([MoveFolder(folder.value.value, newValue)])
            && forall j :: 0 <= j < |items| ==>
                 items[j].image == RenamedChild(old(items[j].image), folder.value.value, newValue))
  {
    if items == [] {
      return Ok([]);
    }
    var folder := ChildFolder(items);
    if folder.Err? {
      return Err(folder.error);
    }
    if IsNullOrEmpty(folder.value) {
      return Ok([]);
    }
    var oldValue := folder.value.value;
    var newValue := FileStem(title, folderGuid);
    RenameChildImages(items, oldValue, newValue);
    return Ok([MoveFolder(oldValue, newValue)]);
  }

  /**
   * The first half of RenamePreviewItemImage: the item's own image moved
   * to a name drawn from its title, with the old extension kept, and the
   * item set to that name through its trimming setter.
   */
  method RenameOwnImage(p: PreviewItem, extensionOf: string -> string, guid: string) returns (renamed: seq<FileAction>)
    requires !IsNullOrEmpty(p.image)
    modifies p
    ensures p.id == old(p.id) && p.title == old(p.title)
    ensures
      var fileName := FileStem(p.title, guid) + extensionOf(old(p.image).value);
      renamed == [MoveFile(old(p.image).value, "", fileName)] && p.image == Trimmed(Some(fileName))
  {
    var oldName := p.image.value;
    var fileName := FileStem(p.title, guid) + extensionOf(oldName);
    renamed := [MoveFile(oldName, "", fileName)];
    p.image := Trimmed(Some(CreateImageName(Some(""), fileName)));
  }

  /**
   * RenamePreviewItemImage. Without an image nothing happens. Otherwise the
   * image is renamed after the title; the method stops there when the item
   * has no portfolio items or none of them has an image. When the first
   * child image has no '/' the folder lookup throws: `failure` says so and
   * `actions` still holds the move made before it. Otherwise the child folder is renamed after the title too and every child image is
   * rewritten into it. `extensionOf` stands for Path.GetExtension, the
   * two Guids for the two Guid.NewGuid() calls.
   */
  method RenamePreviewItemImage(p: PreviewItem, extensionOf: string -> string, guid: string, folderGuid: string)
    returns (actions: seq<FileAction>, failure: Option<Failure>)
    requires DistinctItems(p.portfolioItems)
    modifies p, p.portfolioItems
    ensures p.id == old(p.id) && p.title == old(p.title)
    ensures forall j :: 0 <= j < |p.portfolioItems| ==> p.portfolioItems[j].id == old(p.portfolioItems[j].id) && p.portfolioItems[j].description == old(p.portfolioItems[j].description) && p.portfolioItems[j].parent == old(p.portfolioItems[j].parent)
    ensures IsNullOrEmpty(old(p.image)) ==>
      && actions == [] && failure == None && p.image == old(p.image)
      && forall j :: 0 <= j < |p.portfolioItems| ==> p.portfolioItems[j].image == old(p.portfolioItems[j].image)
    ensures !IsNullOrEmpty(old(p.image)) ==>
      var fileName := FileStem(p.title, guid) + extensionOf(old(p.image).value);
      var renamed := [MoveFile(old(p.image).value, "", fileName)];
      var folder := old(EvaluateChildFolderName(p));
      && p.image == Trimmed(Some(fileName))
      && (failure.Some? <==> p.portfolioItems != [] && folder.Err?)
      && (failure.Some? ==> failure.value == folder.error)
      && (p.portfolioItems == [] || folder.Err? || IsNullOrEmpty(folder.value) ==>
            && actions == renamed
            && forall j :: 0 <= j < |p.portfolioItems| ==> p.portfolioItems[j].image == old(p.portfolioItems[j].image))
      && (p.portfolioItems != [] && folder.Ok? && !IsNullOrEmpty(folder.value) ==>
            var newValue := FileStem(p.title, folderGuid);
            && actions == renamed + [MoveFolder(folder.value.value, newValue)]
            && forall j :: 0 <= j < |p.portfolioItems| ==>
                 p.portfolioItems[j].image == RenamedChild(old(p.portfolioItems[j].image), folder.value.value, newValue))
  {
    if IsNullOrEmpty(p.image) {
      return [], None;
    }
    ghost var folder := ChildFolder(p.portfolioItems);
    assert folder == EvaluateChildFolderName(p);
    var renamed := RenameOwnImage(p, extensionOf, guid);
    assert ChildFolder(p.portfolioItems) == folder;
    assert forall j :: 0 <= j < |p.portfolioItems| ==> p.portfolioItems[j].image == old(p.portfolioItems[j].image);
    var moved := RenameChildFolder(p.portfolioItems, p.title, folderGuid);
    if moved.Err? {
      // the own image has already been moved when the lookup throws
      return renamed, Some(moved.error);
    }
    assert moved.value == [] ==> renamed + moved.value == renamed;
    return renamed + moved.value, None;
  }

  // ---------------------------------------------------------------------------
  // Saving an image

  /** The object SaveImage is handed: a preview item, a portfolio item, or anything else. */
  datatype Owner = Preview(preview: PreviewItem) | Portfolio(item: PortfolioItem) | OtherOwner

  /**
   * EvaluateOrCreateChildFolderName: the existing child folder, or a new
   * one named after the title, which is then created.
   */
  function EvaluateOrCreateChildFolderName(p: PreviewItem?, guid: string): (r: Result<(string, seq<FileAction>), Failure>)
    reads p, if p == null then [] else p.portfolioItems
    ensures r.Ok? ==> r.value.0 != [] || r.value.1 == [CreateFolder(r.value.0)]
    ensures EvaluateChildFolderName(p).Err? <==> r.Err?
    ensures r.Ok? && r.value.1 == [] ==> EvaluateChildFolderName(p) == Ok(Some(r.value.0))
    ensures EvaluateChildFolderName(p).Ok? && !IsNullOrEmpty(EvaluateChildFolderName(p).value) ==>
      r == Ok((EvaluateChildFolderName(p).value.value, []))
    ensures EvaluateChildFolderName(p).Ok? && IsNullOrEmpty(EvaluateChildFolderName(p).value) ==>
      var created := FileStem(p.title, guid);
      r == Ok((created, [CreateFolder(created)]))
  {
    match EvaluateChildFolderName(p)
    case Err(e) => Err(e)
    case Ok(folder) =>
      if !IsNullOrEmpty(folder) then Ok((folder.value, []))
      else
        var created := FileStem(p.title, guid);
        Ok((created, [CreateFolder(created)]))
  }

  /** The file name an item's image is saved under. */
  function SavedName(text: Option<string>, guid: string, extension: string): string
  {
    FileStem(text, guid) + extension
  }

  /** DeleteImage: only an image that is set is deleted, and nothing else. */
  function DeleteImage(image: Option<string>): (r: seq<FileAction>)
    ensures r == [] <==> IsNullOrEmpty(image)
    ensures r != [] ==> r == [DeleteFile(image.value)]
  {
    if IsNullOrEmpty(image) then [] else [DeleteFile(image.value)]
  }

  /**
   * SaveImage. An empty source path gives null and an object of another
   * type gives the empty string, before any file is touched. Otherwise the
   * item's old image is deleted, the source is copied under a name drawn
   * from the title or description, and the image name is returned.
   */
  method SaveImage(item: Owner, sourcePath: Option<string>, extensionOf: string -> string, guid: string, folderGuid: string)
    returns (r: Result<(Option<string>, seq<FileAction>), Failure>)
    ensures IsNullOrEmpty(sourcePath) ==> r == Ok((None, []))
    ensures !IsNullOrEmpty(sourcePath) && item.OtherOwner? ==> r == Ok((Some(""), []))
    ensures !IsNullOrEmpty(sourcePath) && item.Preview? ==>
      var name := SavedName(item.preview.title, guid, extensionOf(sourcePath.value));
      r == Ok((Some(name), DeleteImage(item.preview.image) + [CopyFile(sourcePath.value, "", name)]))
    ensures !IsNullOrEmpty(sourcePath) && item.Portfolio? ==>
      var folder := EvaluateOrCreateChildFolderName(item.item.parent, folderGuid);
      var name := SavedName(item.item.description, guid, extensionOf(sourcePath.value));
      && (folder.Err? ==> r == Err(folder.error))
      && (folder.Ok? ==> r == Ok((Some(CreateImageName(Some(folder.value.0), name)),
                                  folder.value.1 + DeleteImage(item.item.image) + [CopyFile(sourcePath.value, folder.value.0, name)])))
  {
    if IsNullOrEmpty(sourcePath) {
      return Ok((None, []));
    }
    var subfolder, fileName, currentImage, created;
    match item {
      case Preview(p) =>
        currentImage := p.image;
        subfolder := "";
        created := [];
        fileName := FileStem(p.title, guid);
      case Portfolio(c) =>
        currentImage := c.image;
        var folder := EvaluateOrCreateChildFolderName(c.parent, folderGuid);
        if folder.Err? {
          return Err(folder.error);
        }
        subfolder, created := folder.value.0, folder.value.1;
        fileName := FileStem(c.description, guid);
      case OtherOwner =>
        return Ok((Some(""), []));
    }
    fileName := fileName + extensionOf(sourcePath.value);
    var actions := created + DeleteImage(currentImage) + [CopyFile(sourcePath.value, subfolder, fileName)];
    if item.Preview? {
      assert created + DeleteImage(currentImage) == DeleteImage(currentImage);
      PreviewImageAtTop(fileName);
    }
    return Ok((Some(CreateImageName(Some(subfolder), fileName)), actions));
  }

  /** A saved preview image sits at the top of the images folder: its name is the file name itself. */
  lemma PreviewImageAtTop(fileName: string)
    ensures CreateImageName(Some(""), fileName) == fileName
    ensures CreateImageName(None, fileName) == fileName
  {
  }
}
