/**
 * The AWS services both handlers call, seen from the handlers: each SDK call
 * is a request value that either succeeds or fails. A `Cloud` records, in a
 * ghost trace, every request a handler makes, in the order it awaits them.
 */
module Aws {
  import opened Wrappers

  type Byte = b: int | 0 <= b < 256

  /** The deployment settings read from the environment: BUCKET_NAME, TABLE_NAME, SNS_TOPIC_ARN. */
  datatype Config = Config(bucket: string, table: string, topicArn: string)

  /** The item the upload handler writes to the metadata table. */
  datatype FileItem = FileItem(
    fileKey: string,
    fileExtension: string,
    fileSize: nat,
    contentType: string,
    uploadDate: string)

  /** One entry of a bucket listing: its key and, when S3 reports one, its LastModified time in milliseconds. */
  datatype ObjectSummary = ObjectSummary(key: string, lastModified: Option<int>)

  datatype Operation = PutObjectOp | PutItemOp | PublishOp | ListObjectsOp | DeleteObjectsOp

  /** A request sent to a collaborator. */
  datatype Call =
    | PutObject(bucket: string, key: string, body: seq<Byte>, contentType: string)
    | PutItem(table: string, item: FileItem)
    | Publish(topicArn: string, message: string)
    | ListObjects(bucket: string)
    | DeleteObjects(bucket: string, keys: seq<string>)
  {
    function Op(): Operation {
      match this
      case PutObject(_, _, _, _) => PutObjectOp
      case PutItem(_, _) => PutItemOp
      case Publish(_, _) => PublishOp
      case ListObjects(_) => ListObjectsOp
      case DeleteObjects(_, _) => DeleteObjectsOp
    }
  }

  /**
   * The collaborators as one handler invocation sees them: the settings, the
   * operations whose promise rejects during this invocation, and what a
   * listing of the bucket returns as its `Contents`.
   */
  class Cloud {
    const config: Config
    const failing: set<Operation>
    const listing: Option<seq<ObjectSummary>>
    ghost var trace: seq<Call>

    constructor (config: Config, failing: set<Operation>, listing: Option<seq<ObjectSummary>>)
      ensures this.config == config && this.failing == failing && this.listing == listing
      ensures trace == []
    {
      this.config := config;
      this.failing := failing;
      this.listing := listing;
      trace := [];
    }

    /** Sends `c` and awaits it: the request is recorded whether or not it succeeds. */
    method Send(c: Call) returns (ok: bool)
      modifies this
      ensures trace == old(trace) + [c]
      ensures ok <==> c.Op() !in failing
    {
      trace := trace + [c];
      ok := c.Op() !in failing;
    }

    /** Lists the configured bucket (one page, as listObjectsV2 returns it). */
    method List() returns (ok: bool, contents: Option<seq<ObjectSummary>>)
      modifies this
      ensures trace == old(trace) + [ListObjects(config.bucket)]
      ensures ok <==> ListObjectsOp !in failing
      ensures contents == if ok then listing else None
    {
      trace := trace + [ListObjects(config.bucket)];
      ok := ListObjectsOp !in failing;
      contents := if ok then listing else None;
    }
  }
}
