/** The parts of Express the handlers use: a JSON body, and a response
    object to which `res.status(s).json(b)` appends one write. */
module Http {
  import opened Common

  /** A JSON value; object members keep their insertion order. */
  datatype Json =
    | JNull
    | JBool(b: bool)
    | JNum(n: real)
    | JStr(s: string)
    | JArr(items: seq<Json>)
    | JObj(members: seq<(string, Json)>)

  /** `error instanceof Error ? error.message : 'Error desconocido'`. */
  const UnknownError := "Error desconocido"

  /** The part of a multer upload the handlers read (`req.file`). */
  datatype UploadedFile = UploadedFile(path: string, mimetype: string, originalName: string, size: nat)

  /** One `res.status(status).json(body)`. */
  datatype Write = Write(status: int, body: Json)

  class Response {
    /** Every write attempted, in order.  Express ends the response with the
        first one; a second one is the `ERR_HTTP_HEADERS_SENT` situation. */
    var writes: seq<Write>

    constructor ()
      ensures writes == []
    {
      writes := [];
    }

    method Send(status: int, body: Json)
      modifies this
      ensures writes == old(writes) + [Write(status, body)]
    {
      writes := writes + [Write(status, body)];
    }

    /** What the client receives: the first write, if any. */
    function Delivered(): (r: Option<Write>)
      reads this
      ensures r.None? <==> writes == []
      ensures r.Some? ==> r.value == writes[0]
    {
      if |writes| == 0 then None else Some(writes[0])
    }
  }
}
