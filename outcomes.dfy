/** The failures the extraction code can raise, and a result type that carries them. */
module Outcomes {

  /** The exceptions of app/data.py that the model keeps: `dict.pop` on a missing key,
      `loadmat` on a file that is not in the output directory, indexing an empty matrix, and
      `pd.concat` on an empty list of frames. */
  datatype Error =
    | KeyError(key: string)
    | FileNotFound(name: string)
    | IndexError
    | ValueError

  datatype Result<T> = Ok(value: T) | Err(error: Error)

  datatype Option<T> = None | Some(value: T)
}
