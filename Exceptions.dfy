/** The Python exceptions the parsing and merge engine can raise. */
module Exceptions {

  datatype PyError =
    | KeyError(key: string)          // `data[key]` on a document without that key
    | TypeError                       // a JSON `null` where a string or a list is used as one
    | ValueError                      // no parser in the timestamp chain accepted the date
    | InvalidBundleIdentifierError    // modules/repoparser.py:47
    | InvalidAppsError                // modules/repoparser.py:51
}
