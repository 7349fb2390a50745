/**
 * The records exchanged by the directory (ui/lib/types.ts): knowledge-graph entries as read
 * from the export, and the community members projected from them.
 */
module KnowledgeGraph {
  import opened Wrappers

  /** One ontology alignment of a free-text field; every attribute may be `null`. */
  datatype ConceptMapping = ConceptMapping(
    conceptLabel: Option<string>,
    ontologyId: Option<string>,
    ontology: Option<string>,
    confidence: Option<real>,
    explanation: Option<string>)

  /**
   * A knowledge-graph entry: named free-text fields (`Name`, `Role`, `Expertise`, `Interest`,
   * `Note`, ...) and, per field name, the list of concept mappings of that field.
   * A key missing from either map is an `undefined` property.
   */
  datatype Entry = Entry(fields: map<string, string>, mappings: map<string, seq<ConceptMapping>>)

  /** A member as shown in the directory; `originalData` is the entry it came from. */
  datatype Member = Member(
    id: string,
    title: string,
    description: string,
    memberType: string,
    keywords: seq<string>,
    programmingLanguage: string,
    platform: string,
    originalData: Entry)

  /** `entry.fields[name] || ''`. */
  function Field(e: Entry, name: string): string {
    if name in e.fields then e.fields[name] else ""
  }

  /** `entry.mappings[name] || []`. */
  function MappingList(e: Entry, name: string): seq<ConceptMapping> {
    if name in e.mappings then e.mappings[name] else []
  }
}
