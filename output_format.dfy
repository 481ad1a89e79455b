/** `OutputFormat`: the four report formats and the file extension of each. */
module OutputFormats {

  datatype OutputFormat = LIST | TREE | JSON | YAML

  /** The formats in declaration order (`OutputFormat.values()`). */
  const ALL: seq<OutputFormat> := [LIST, TREE, JSON, YAML]

  /** The `extension` each constant is declared with. */
  function Extension(f: OutputFormat): string {
    match f
    case LIST => ".txt"
    case TREE => ".txt"
    case JSON => ".json"
    case YAML => ".yml"
  }

  /** There are exactly four formats, each listed once, in declaration order. */
  lemma AllFormats(f: OutputFormat)
    ensures f in ALL
    ensures |ALL| == 4 && ALL[0] == LIST && ALL[1] == TREE && ALL[2] == JSON && ALL[3] == YAML
    ensures forall i, j | 0 <= i < j < |ALL| :: ALL[i] != ALL[j]
  {
  }

  /** Two formats share an extension exactly when they are equal or are LIST and
      TREE, so the extension does not determine the format. */
  lemma SameExtension(f: OutputFormat, g: OutputFormat)
    ensures Extension(f) == Extension(g) <==> f == g || (f.LIST? && g.TREE?) || (f.TREE? && g.LIST?)
  {
  }

  /** Every extension is a dot followed by a non-empty word. */
  lemma ExtensionShape(f: OutputFormat)
    ensures |Extension(f)| >= 2 && Extension(f)[0] == '.' && '.' !in Extension(f)[1..]
  {
  }
}
