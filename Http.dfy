/**
 * What a Python call can end with, as far as the downloader's callers can
 * observe it: a returned value (an int or None) or an exception that
 * escapes the method.
 */
module Outcomes {

  datatype Option<T> = None | Some(value: T)

  /** The exceptions the downloader's code paths can raise or catch. */
  datatype Exception = ConnectionError | KeyError | TypeError | ValueError | IndexError | NameError

  /** How a Python method call ends. */
  datatype Returned = Int(value: int) | NoneValue | Raised(error: Exception)
}

/**
 * The HTTP responses the downloader consumes, with the network replaced by
 * an abstract reply, and the streamed write of a body to a file.
 */
module Http {
  import opened Outcomes
  import opened Strings

  newtype byte = b: int | 0 <= b < 256

  type Bytes = seq<byte>

  /** `r.iter_content(2048)`: the size of the chunks a body is streamed in. */
  const ChunkSize: nat := 2048

  /** A `requests.get` call: either it raises ConnectionError or a response arrives. */
  datatype Reply = Refused | Reply(status: int, content: Bytes)

  /**
   * `for chunk in r.iter_content(2048): f.write(chunk)`: the body is written
   * chunk by chunk. The file ends up holding exactly the body. The model's
   * chunks are non-empty, at most 2048 bytes long, and all but the last are
   * full.
   */
  method StreamToFile(content: Bytes) returns (file: Bytes, chunks: seq<Bytes>)
    ensures file == content
    ensures Concat(chunks) == content
    ensures forall k :: 0 <= k < |chunks| ==> 0 < |chunks[k]| <= ChunkSize
    ensures forall k :: 0 <= k < |chunks| - 1 ==> |chunks[k]| == ChunkSize
  {
    file, chunks := [], [];
    var i := 0;
    while i < |content|
      invariant 0 <= i <= |content|
      invariant file == content[..i] && Concat(chunks) == file
      invariant forall k :: 0 <= k < |chunks| ==> 0 < |chunks[k]| <= ChunkSize
      invariant forall k :: 0 <= k < |chunks| - 1 ==> |chunks[k]| == ChunkSize
      invariant i < |content| ==> forall k :: 0 <= k < |chunks| ==> |chunks[k]| == ChunkSize
    {
      var end := if i + ChunkSize <= |content| then i + ChunkSize else |content|;
      var chunk := content[i..end];
      ConcatSnoc(chunks, chunk);
      assert content[..end] == content[..i] + chunk;
      file := file + chunk;
      chunks := chunks + [chunk];
      i := end;
    }
    assert content[..i] == content;
  }

  /**
   * The download step shared by `get_pdf_from_pii` and `download_article`:
   * the file is opened and the body streamed into it only when the status
   * is 200; a refused connection or any other status writes nothing.
   * `saved` is the file's content, or None when no file was written.
   */
  method SaveIfOk(reply: Reply) returns (saved: Option<Bytes>)
    ensures saved.Some? <==> reply.Reply? && reply.status == 200
    ensures saved.Some? ==> saved.value == reply.content
  {
    saved := None;
    if reply.Reply? && reply.status == 200 {
      var file, _ := StreamToFile(reply.content);
      saved := Some(file);
    }
  }
}
