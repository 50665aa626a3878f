/** The records of the grocery catalog (src/types.ts). */
module Types {
  import opened Seqs

  /** The two ingredient lists of a recipe, and the section an extra item goes to. */
  datatype Section = Standard | Special

  /** Where an extra item came from, kept for display only. */
  datatype Source = Manual | Favourite

  /** An ad-hoc grocery item. The record type declares only a name and a section; the
      store also writes a source tag, so it is an optional field here. */
  datatype ExtraItem = ExtraItem(name: string, section: Section, source: Option<Source>)

  datatype Recipe = Recipe(
    id: string,
    title: string,
    standard: seq<string>,
    special: seq<string>,
    createdAt: string,
    updatedAt: string)
  {
    /** The ingredient list of one section. */
    function Lines(section: Section): seq<string> {
      if section == Standard then standard else special
    }
  }

  /** A named snapshot of the grocery builder (its schema version is always 1). */
  datatype SavedList = SavedList(
    id: string,
    name: string,
    recipeIds: seq<string>,
    extras: seq<ExtraItem>,
    checkedNames: seq<string>,
    createdAt: string,
    updatedAt: string)
}
