/** The error outcomes the API views return instead of a success body. */
module Responses {

  datatype ApiError =
    | TooManyUrls                  // 400 'Cannot process more than 50 URLs at a time.'
    | NoFiltersProvided            // 400 'No filters provided'
    | FilterFieldNotFound(name: string)  // 404 'Field "<name>" not found'
    | FieldNotFound                // 404 'Field not found'
    | FieldParameterRequired       // 400 'Field parameter is required'
}
