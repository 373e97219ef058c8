/**
 * A project item (ContentManagement/ProjectItem.cs): an id handed out on
 * first read, text properties stored trimmed, and the image size.
 *
 * The static `PersistenceManager.NextId` the getter calls is the
 * `manager` the item is created with. The `Parent` project is not part of
 * this model.
 */
module Items {
  import opened Wrappers
  import opened Chars
  import opened Persistence

  /** System.Drawing.Size: only the two dimensions are read. */
  datatype Size = Size(width: int, height: int)

  class ProjectItem {
    /** `_id`: 0 until an id is read or set. */
    var id: int
    var image: Option<string>
    var description: Option<string>
    var url: Option<string>
    var video: Option<string>
    var width: int
    var height: int
    const manager: PersistenceManager

    constructor (manager: PersistenceManager)
      ensures this.manager == manager && id == 0
      ensures image == None && description == None && url == None && video == None
      ensures width == 0 && height == 0
    {
      this.manager := manager;
      id := 0;
      image, description, url, video := None, None, None, None;
      width, height := 0, 0;
    }

    /**
     * The Id getter: while the stored id is 0 the next id is drawn from
     * the manager and stored; otherwise the stored id comes back and the
     * manager is not asked.
     */
    method GetId() returns (r: int)
      modifies this`id, manager`lastId
      ensures old(id) == 0 ==> r == old(manager.lastId) + 1 && manager.lastId == r
      ensures old(id) != 0 ==> r == old(id) && manager.lastId == old(manager.lastId)
      ensures id == r
    {
      if id == 0 {
        id := manager.NextId();
      }
      r := id;
    }

    /** The Id setter: the value is stored as it is. */
    method SetId(value: int)
      modifies this`id
      ensures id == value
    {
      id := value;
    }

    method SetImage(value: Option<string>)
      modifies this`image
      ensures image == Trimmed(value)
    {
      image := Trimmed(value);
    }

    method SetDescription(value: Option<string>)
      modifies this`description
      ensures description == Trimmed(value)
    {
      description := Trimmed(value);
    }

    method SetUrl(value: Option<string>)
      modifies this`url
      ensures url == Trimmed(value)
    {
      url := Trimmed(value);
    }

    method SetVideo(value: Option<string>)
      modifies this`video
      ensures video == Trimmed(value)
    {
      video := Trimmed(value);
    }

    /** UpdateImageSize: the width and height become the size's. */
    method UpdateImageSize(size: Size)
      modifies this`width, this`height
      ensures width == size.width && height == size.height
    {
      width := size.width;
      height := size.height;
    }
  }

  /**
   * Reading the id twice gives the same id, and only the first read of an
   * item that had none takes one from the manager. The counter never goes
   * below 0 (it starts at 0 and only counts up), so the id drawn is not 0.
   */
  method ReadIdTwice(item: ProjectItem) returns (first: int, second: int)
    requires item.manager.lastId >= 0
    modifies item`id, item.manager`lastId
    ensures first == second && first != 0 && item.id == first
    ensures old(item.id) != 0 ==> first == old(item.id) && item.manager.lastId == old(item.manager.lastId)
    ensures old(item.id) == 0 ==> item.manager.lastId == old(item.manager.lastId) + 1
  {
    first := item.GetId();
    second := item.GetId();
  }

  /** A non-zero id that was set is what the getter then returns, without drawing a new one. */
  method SetThenGet(item: ProjectItem, value: int) returns (r: int)
    requires value != 0
    modifies item`id, item.manager`lastId
    ensures r == value && item.manager.lastId == old(item.manager.lastId)
  {
    item.SetId(value);
    r := item.GetId();
  }

  /**
   * Setting an id of 0 undoes the allocation: the next read draws a fresh
   * id again.
   */
  method SetZeroThenGet(item: ProjectItem) returns (r: int)
    modifies item`id, item.manager`lastId
    ensures r == old(item.manager.lastId) + 1 && item.manager.lastId == r
  {
    item.SetId(0);
    r := item.GetId();
  }

  /**
   * Writing back what a setter stored changes nothing, and a value that
   * is only white space is stored as the empty string.
   */
  method ReassignImage(item: ProjectItem, value: Option<string>)
    modifies item`image
    ensures item.image == Trimmed(value)
    ensures value.Some? && IsBlank(value.value) ==> item.image == Some([])
    ensures value.None? ==> item.image == None
  {
    item.SetImage(value);
    ghost var stored := item.image;
    item.SetImage(item.image);
    TrimmedIdempotent(value);
    assert item.image == stored;
    if value.Some? {
      TrimEmpty(value.value);
    }
  }
}
