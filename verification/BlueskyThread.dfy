/** How Bluesky replies find the root of their thread. */
module BlueskyThread {
  import opened Wrappers

  datatype Json = Null | Text(text: string) | Object(fields: map<string, Json>)

  /** A stored external id: empty, something that is not JSON, or a JSON document. */
  datatype ReplyTo = NoReply | NotJson | Doc(json: Json)

  /** A Go map; two variables may refer to the same one. */
  class GoMap {
    var fields: map<string, Json>

    constructor (fields: map<string, Json>)
      ensures this.fields == fields
    {
      this.fields := fields;
    }
  }

  /** The part of a post record that a reply adds, as references to live maps. */
  class Record {
    var reply: Option<(GoMap?, GoMap?)>

    constructor ()
      ensures reply == None
    {
      reply := None;
    }

    /** What `record["reply"]` marshals to when the record is sent. */
    function Marshal(): Option<Json>
      reads this, if reply.Some? then {reply.value.0, reply.value.1} else {}
    {
      if reply.None? then None
      else Some(Object(map["root" := MarshalMap(reply.value.0), "parent" := MarshalMap(reply.value.1)]))
    }
  }

  function MarshalMap(m: GoMap?): Json
    reads m
  {
    if m == null then Null else Object(m.fields)
  }

  /** Can the document be unmarshalled into a map? JSON null gives a nil map. */
  predicate IsMap(replyTo: ReplyTo) {
    replyTo.Doc? && (replyTo.json.Object? || replyTo.json.Null?)
  }

  method UnmarshalMap(json: Json) returns (m: GoMap?)
    requires IsMap(Doc(json))
    ensures json.Null? ==> m == null
    ensures json.Object? ==> m != null && fresh(m) && m.fields == json.fields
  {
    if json.Object? {
      m := new GoMap(json.fields);
    } else {
      m := null;
    }
  }

  function Field(fields: map<string, Json>, key: string): Json {
    if key in fields then fields[key] else Null
  }

  /** The reply part that a stored id leads to; None when it is empty or not a map. */
  function ReplyOf(replyTo: ReplyTo): Option<Json> {
    if !IsMap(replyTo) then None
    else if replyTo.json.Null? then Some(Object(map["root" := Null, "parent" := Null]))
    else
      var parent := Object(replyTo.json.fields - {"_root"});
      var root := Field(replyTo.json.fields, "_root");
      Some(Object(map["root" := if root.Object? then root else parent, "parent" := parent]))
  }

  /**
   attachReplyToRecord. Without a stored root, `rootRef` and `parentRef` are one map, so deleting the
   `_root` key from the parent also deletes it from the root.
   */
  method AttachReplyToRecord(record: Record, replyTo: ReplyTo)
    modifies record
    ensures ReplyOf(replyTo).None? ==> record.reply == old(record.reply)
    ensures ReplyOf(replyTo).Some? ==> record.Marshal() == ReplyOf(replyTo)
  {
    if !IsMap(replyTo) {
      return;
    }
    var parentRef := UnmarshalMap(replyTo.json);
    var rootRef := parentRef;
    if rootRef != null && Field(rootRef.fields, "_root") != Null {
      var root := Field(rootRef.fields, "_root");
      if root.Object? {
        rootRef := new GoMap(root.fields);
      }
    }
    if parentRef != null {
      parentRef.fields := parentRef.fields - {"_root"};
    }
    record.reply := Some((rootRef, parentRef));
  }

  /** getParentRoot. */
  function ParentRoot(replyTo: ReplyTo): Json {
    if !IsMap(replyTo) || replyTo.json.Null? then Null
    else
      var root := Field(replyTo.json.fields, "_root");
      if root != Null then root else replyTo.json
  }

  function ExternalId(uri: string, cid: string, replyTo: ReplyTo): Json {
    Object(map["uri" := Text(uri), "cid" := Text(cid), "_root" := ParentRoot(replyTo)])
  }

  /** What the server returns for a created record. */
  datatype Created = Created(uri: string, cid: string)

  /** Publishing one post: what is sent as its reply part, and the external id to store. */
  method Publish(created: Created, replyTo: ReplyTo) returns (sent: Option<Json>, externalId: Json)
    ensures sent == ReplyOf(replyTo)
    ensures externalId == ExternalId(created.uri, created.cid, replyTo)
  {
    var record := new Record();
    AttachReplyToRecord(record, replyTo);
    sent := record.Marshal();
    externalId := Object(map["uri" := Text(created.uri), "cid" := Text(created.cid), "_root" := ParentRoot(replyTo)]);
  }

  // ----- a thread, each post replying to the one before -----

  /** What post i replies to: the stored id of the post before it. */
  function ReplyTarget(posts: seq<Created>, i: nat): ReplyTo
    requires i <= |posts|
    decreases i, 0
  {
    if i == 0 then NoReply else Doc(ThreadId(posts, i - 1))
  }

  /** The external id of post i. */
  function ThreadId(posts: seq<Created>, i: nat): Json
    requires i < |posts|
    decreases i, 1
  {
    ExternalId(posts[i].uri, posts[i].cid, ReplyTarget(posts, i))
  }

  /** The plain reference to a post. */
  function Ref(post: Created): Json {
    Object(map["uri" := Text(post.uri), "cid" := Text(post.cid)])
  }

  predicate RefersTo(json: Json, post: Created) {
    json.Object? && Field(json.fields, "uri") == Text(post.uri) && Field(json.fields, "cid") == Text(post.cid)
  }

  /** From the second post on, the stored root is exactly the first post's id: ids never nest deeper. */
  lemma {:induction false} StoredRootIsFirst(posts: seq<Created>, i: nat)
    requires i < |posts|
    ensures ThreadId(posts, i) ==
      Object(map["uri" := Text(posts[i].uri), "cid" := Text(posts[i].cid), "_root" := if i == 0 then Null else ThreadId(posts, 0)])
  {
    if i > 0 {
      StoredRootIsFirst(posts, i - 1);
    }
  }

  /**
   In a thread of any length, the parent of every reply is the post before it and the root is the first
   post; from the third post on the root still carries a null `_root` key.
   */
  lemma ReplyReferences(posts: seq<Created>, i: nat)
    requires 1 <= i < |posts|
    ensures var reply := ReplyOf(ReplyTarget(posts, i));
      && reply.Some? && reply.value.Object?
      && Field(reply.value.fields, "parent") == Ref(posts[i - 1])
      && Field(reply.value.fields, "root") == (if i == 1 then Ref(posts[0]) else ThreadId(posts, 0))
      && RefersTo(Field(reply.value.fields, "root"), posts[0])
  {
    StoredRootIsFirst(posts, i - 1);
    StoredRootIsFirst(posts, 0);
    var id := ThreadId(posts, i - 1);
    assert id.fields - {"_root"} == map["uri" := Text(posts[i - 1].uri), "cid" := Text(posts[i - 1].cid)];
  }

  /** A post known by its plain reference is the root of its replies and of the replies to these. */
  lemma RepliesBelowPlainPost(first: Created, reply: Created)
    ensures ReplyOf(Doc(Ref(first))) == Some(Object(map["root" := Ref(first), "parent" := Ref(first)]))
    ensures ReplyOf(Doc(ExternalId(reply.uri, reply.cid, Doc(Ref(first))))) ==
            Some(Object(map["root" := Ref(first), "parent" := Ref(reply)]))
  {
    assert Ref(first).fields - {"_root"} == Ref(first).fields;
    var id := ExternalId(reply.uri, reply.cid, Doc(Ref(first)));
    assert id.fields - {"_root"} == Ref(reply).fields;
  }

  /** The root that a reply to this stored document is sent with. */
  function SentRoot(document: map<string, Json>): Json {
    Field(ReplyOf(Doc(Object(document))).value.fields, "root")
  }

  /** The same reference, whatever either says about a root of its own. */
  predicate SameReference(a: Json, b: Json) {
    a.Object? && b.Object? && a.fields - {"_root"} == b.fields - {"_root"}
  }

  /**
   A reply to any stored document and the reply to that reply are sent with the same root, exactly when the
   document has an object as its `_root`, or none, or the two posts are one.
   */
  lemma RootIsKeptIff(document: map<string, Json>, reply: Created)
    ensures var next := ExternalId(reply.uri, reply.cid, Doc(Object(document)));
      SameReference(SentRoot(document), SentRoot(next.fields)) <==>
        Field(document, "_root").Null? || Field(document, "_root").Object? || document - {"_root"} == Ref(reply).fields
  {
    var next := ExternalId(reply.uri, reply.cid, Doc(Object(document)));
    assert next.fields - {"_root"} == Ref(reply).fields;
    assert document - {"_root"} - {"_root"} == document - {"_root"};
    assert Ref(reply).fields - {"_root"} == Ref(reply).fields;
  }

  /** The first i posts are out: their ids are stored and their reply parts were sent. */
  ghost predicate Published(posts: seq<Created>, ids: seq<Json>, replies: seq<Option<Json>>, i: nat) {
    && |ids| == |replies| == i <= |posts|
    && forall j :: 0 <= j < i ==> ids[j] == ThreadId(posts, j) && replies[j] == ReplyOf(ReplyTarget(posts, j))
  }

  lemma PublishedNext(posts: seq<Created>, ids: seq<Json>, replies: seq<Option<Json>>, i: nat, id: Json, reply: Option<Json>)
    requires i < |posts| && Published(posts, ids, replies, i)
    requires id == ThreadId(posts, i) && reply == ReplyOf(ReplyTarget(posts, i))
    ensures Published(posts, ids + [id], replies + [reply], i + 1)
  {
  }

  /** Publishing a whole thread, as the publisher does through stored external ids. */
  method PublishThread(posts: seq<Created>) returns (ids: seq<Json>, replies: seq<Option<Json>>)
    ensures |ids| == |replies| == |posts|
    ensures forall i :: 0 <= i < |posts| ==> ids[i] == ThreadId(posts, i) && replies[i] == ReplyOf(ReplyTarget(posts, i))
  {
    ids, replies := [], [];
    var previous := NoReply;
    for i := 0 to |posts|
      invariant previous == ReplyTarget(posts, i)
      invariant Published(posts, ids, replies, i)
    {
      var reply, id := Publish(posts[i], previous);
      PublishedNext(posts, ids, replies, i, id, reply);
      ids := ids + [id];
      replies := replies + [reply];
      previous := Doc(id);
    }
  }
}
