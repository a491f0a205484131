/**
 The actions the store posts to move and copy messages (Move, Copy and Delete of
 lib/msgstore.go), and what the callback of a move does with the reply to its copy.
 */
module StorePosts {
  import opened Collections

  type Uid = nat
  type Dir = string

  datatype Request =
    | CopyMessages(uids: seq<Uid>, dest: Dir)
    | DeleteMessages(uids: seq<Uid>)
    | CreateDirectory(dir: Dir)
    | OpenDirectory(dir: Dir)
    | FetchDirectoryContents

  /** Nobody hears of the reply, the caller of the store's method does, or a move's own callback. */
  datatype Callback = Nobody | Caller | ThenDelete(toDelete: seq<Uid>)

  datatype Post = Post(request: Request, callback: Callback)

  function CopyPosts(uids: seq<Uid>, dest: Dir, createDest: bool): seq<Post> {
    (if createDest then [Post(CreateDirectory(dest), Caller)] else []) + [Post(CopyMessages(uids, dest), Caller)]
  }

  /** A move's copy carries the uids to delete once it is Done. */
  function MovePosts(uids: seq<Uid>, dest: Dir, createDest: bool): seq<Post> {
    (if createDest then [Post(CreateDirectory(dest), Nobody)] else []) + [Post(CopyMessages(uids, dest), ThenDelete(uids))]
  }

  function DeletePosts(uids: seq<Uid>): seq<Post> {
    [Post(DeleteMessages(uids), Caller)]
  }

  /** What a move's callback posts on the reply to its copy: nothing on an error, which the caller is told. */
  function ReplyPosts(uids: seq<Uid>, done: bool): seq<Post> {
    if done then DeletePosts(uids) else []
  }
}
