/**
 * File attachments, `body['attachments']`: base64 content and a name for
 * every attachment whose file can be read.
 */
module Attachments {
  import opened Php
  import opened Host
  import opened Body
  import opened Seqs

  /** One attachment as the host lists it: the file path (slot 0) and the
      name to send (slot 2). */
  datatype Attachment = Attachment(path: string, name: string)

  /** The entry for one attachment, or None when its file cannot be read. */
  function Encode(env: Env): Attachment -> Option<FileEntry> {
    (a: Attachment) =>
      match env.readFile(a.path)
      case Some(bytes) => Some(FileEntry(env.base64(bytes), a.name))
      case None => None
  }

  predicate Readable(env: Env, a: Attachment) {
    env.readFile(a.path).Some?
  }

  /** `prepare_attachments`: one entry per readable attachment, in input
      order; unreadable files are skipped. */
  method PrepareAttachments(env: Env, attachments: seq<Attachment>) returns (data: seq<FileEntry>)
    ensures data == FilterMap(attachments, Encode(env))
    ensures |data| <= |attachments|
    ensures forall k :: 0 <= k < |data| ==>
              exists i :: 0 <= i < |attachments| && Readable(env, attachments[i])
                          && data[k] == FileEntry(env.base64(env.readFile(attachments[i].path).value),
                                                  attachments[i].name)
    ensures (forall i :: 0 <= i < |attachments| ==> Readable(env, attachments[i])) ==> |data| == |attachments|
  {
    data := [];
    for i := 0 to |attachments|
      invariant data == FilterMap(attachments[..i], Encode(env))
    {
      assert attachments[..i + 1][..i] == attachments[..i];
      match env.readFile(attachments[i].path)
      case Some(bytes) =>
        data := data + [FileEntry(env.base64(bytes), attachments[i].name)];
      case None =>
    }
    assert attachments[..|attachments|] == attachments;
    PreparedEntries(env, attachments, data);
    if forall i :: 0 <= i < |attachments| ==> Readable(env, attachments[i]) {
      FilterMapAll(attachments, Encode(env));
    }
  }

  lemma PreparedEntries(env: Env, attachments: seq<Attachment>, data: seq<FileEntry>)
    requires data == FilterMap(attachments, Encode(env))
    ensures forall k :: 0 <= k < |data| ==>
              exists i :: 0 <= i < |attachments| && Readable(env, attachments[i])
                          && data[k] == FileEntry(env.base64(env.readFile(attachments[i].path).value),
                                                  attachments[i].name)
  {
    var idx := Kept(attachments, Encode(env));
    forall k | 0 <= k < |data|
      ensures exists i :: 0 <= i < |attachments| && Readable(env, attachments[i])
                          && data[k] == FileEntry(env.base64(env.readFile(attachments[i].path).value),
                                                  attachments[i].name)
    {
      var i := idx[k];
      assert Encode(env)(attachments[i]) == Some(data[k]);
    }
  }

  /** `set_attachments`: `attachments` is set, to the prepared entries,
      exactly when at least one file is readable; nothing else changes. */
  method SetAttachments(env: Env, body: Request, attachments: seq<Attachment>) returns (r: Request)
    ensures (exists i :: 0 <= i < |attachments| && Readable(env, attachments[i]))
            ==> "attachments" in r && r["attachments"] == FileList(FilterMap(attachments, Encode(env)))
    ensures (forall i :: 0 <= i < |attachments| ==> !Readable(env, attachments[i])) ==> r == body
    ensures forall k :: k != "attachments" ==> Untouched(body, r, k)
  {
    if |attachments| == 0 {
      return body;
    }
    var data := PrepareAttachments(env, attachments);
    FilterMapEmpty(attachments, Encode(env));
    if |data| > 0 {
      r := SetBodyParam(body, map["attachments" := FileList(data)]);
    } else {
      r := body;
    }
  }
}
