/** Status codes and the outcome of a remote call.
    A handler either returns a reply or raises an RPC failure carrying a
    status code and a detail message; `Result` models that choice. */
module Rpc {

  datatype StatusCode = InvalidArgument | NotFound | Internal | Unauthenticated

  datatype Status = Status(code: StatusCode, detail: string)

  /** `Fail` stands for a thrown RpcException. */
  datatype Result<T> = Ok(value: T) | Fail(status: Status)
}
