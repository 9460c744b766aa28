/** `None` or a value: Python's optional results (`parsed.hostname`, `hyperlink.get('href')`). */
module Wrappers {
  datatype Option<+T> = None | Some(value: T)
}
