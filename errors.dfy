/** The exceptions the table raises, one constructor per message, and the PHP errors it can run into. */
module Errors {

  datatype TableError =
    | UnknownProfile(profile: string)        // "Unable to find the profile '%s'"
    | MissingConfig(keys: seq<string>)       // "Missing config items: %s"
    | ResultsAlreadySet                      // "You have already defined an array for this sort"
    | QueryAlreadySet                        // "You have already defined a query for this sort"
    | EmptySeparator                         // explode() with an empty separator
    | NoDataSource                           // neither a query nor results were given
    | AliasSearch                            // "Unfortunately, fields that are aliases cannot be searched at this time"
    | TemplateMissing(column: string)        // "No template provided for column '%s'"
    | LengthMissing(column: string)          // "Length not provided for column '%s'"
    | NotBoolean                             // "Data not boolean"
    | InvalidDataType(cellType: string)      // "Invalid data type '%s'"
    | CallbackMissing(column: string)        // call_user_func_array() on an unset `function` option (PHP 8 TypeError)
}
