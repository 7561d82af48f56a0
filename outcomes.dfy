/** How an editing routine ends. */
module Outcomes {
  import opened XmlTree

  /** The Python exception a routine stops with. */
  datatype PyError =
    | IndexError(list: string)
    | KeyError(key: string)
    | TypeError(what: string)
    | AttributeError(what: string)
    | UnboundLocalError(name: string)

  /** What a routine leaves for the next one: no new file, a new file holding
      `tree`, or an exception before `tree.write`, which also writes nothing. */
  datatype Outcome = NotWritten | Written(tree: Element) | Raised(error: PyError)
}
