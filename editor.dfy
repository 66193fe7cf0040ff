/**
 * The host editor, reduced to what the plugin uses of a view: its id,
 * its text, the scope label at an offset, the regex search, and the
 * named region groups drawn on it.
 */
module Editor {
  import opened Regions
  import opened Grouping

  /** `view.id()`. */
  type ViewId = int

  /**
   * How a region group is drawn: a solid underline (`DRAW_NO_FILL |
   * DRAW_NO_OUTLINE | DRAW_SOLID_UNDERLINE`) or empty regions drawn as
   * overwrite carets (`DRAW_EMPTY_AS_OVERWRITE`).
   */
  datatype Style = SolidUnderline | EmptyAsOverwrite

  /** One named region group as `view.add_regions` stores it. */
  datatype Drawing = Drawing(regions: seq<Region>, scope: Scope, style: Style)

  class EditorView {
    const id: ViewId
    /** The buffer, for `view.substr`. */
    const text: string
    /** `view.scope_name(offset)`. */
    const scopeName: int -> Scope
    /** `view.find_all(pattern)`: the matches, in buffer order. */
    const findAll: string -> seq<Region>
    /** The region groups currently drawn, by key. */
    var regions: map<string, Drawing>

    constructor (id: ViewId, text: string, scopeName: int -> Scope, findAll: string -> seq<Region>)
      ensures this.id == id && this.text == text
      ensures this.scopeName == scopeName && this.findAll == findAll
      ensures regions == map[]
    {
      this.id := id;
      this.text := text;
      this.scopeName := scopeName;
      this.findAll := findAll;
      regions := map[];
    }

    /** `view.add_regions(key, rs, scope, flags)`: replaces the group under `key`. */
    method AddRegions(key: string, rs: seq<Region>, scope: Scope, style: Style)
      modifies this
      ensures regions == old(regions)[key := Drawing(rs, scope, style)]
    {
      regions := regions[key := Drawing(rs, scope, style)];
    }

    /** `view.erase_regions(key)`: removes the group under `key`, if any. */
    method EraseRegions(key: string)
      modifies this
      ensures regions == old(regions) - {key}
    {
      regions := regions - {key};
    }
  }
}
