/** Outcomes of the tar backend: a value, or the exception the backend lets
    escape (each error carries the value its message interpolates). */
module TarErrors {

  datatype Option<T> = None | Some(value: T)

  datatype TarError =
    | UnsupportedExtension(ext: string)  // ValueError raised by _get_mode
    | FileNotFound(path: string)         // FileNotFoundError raised by load
    | ReadError(path: string)            // tarfile.ReadError: archive not readable in the requested mode
    | MemberNotFound(name: string)       // KeyError raised by tar.getmember

  datatype Result<T> = Ok(value: T) | Err(error: TarError)
}
