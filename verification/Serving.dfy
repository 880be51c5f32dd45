/** Answering a GET: which item, which bytes of it, under which headers. */
module Serving {
  import opened Prelude
  import opened Paths
  import opened Disk
  import opened Caching
  import opened Storage
  import opened AcceptEncoding

  // Which item

  /** The cache key a request path asks for; `None` when it is refused. */
  function RequestKey(coding: PercentCoding, tail: string): Option<string> {
    match coding.decode(tail)
    case None => None
    case Some(decoded) =>
      if Refused(decoded) then None
      else if decoded == "/" || decoded == "" then Some("index.html")
      else Some(decoded[1..])
  }

  /** What is refused, "/" and "" for the index, and otherwise all but the first character. */
  lemma RequestKeyExactly(coding: PercentCoding, tail: string)
    ensures coding.decode(tail).None? ==> RequestKey(coding, tail).None?
    ensures coding.decode(tail).Some? ==>
              var s := coding.decode(tail).value;
              if '\\' in s || ".." <= s || Contains(s, "/..") then RequestKey(coding, tail).None?
              else RequestKey(coding, tail) == Some(if |s| == 0 || s == "/" then "index.html" else s[1..])
  {
    if coding.decode(tail).Some? {
      RefusedExactlyWhen(coding.decode(tail).value);
    }
    hide Contains;
  }

  function Lookup(cache: map<string, Snapshot>, host: string, key: string): Option<CacheItem> {
    if host in cache && key in cache[host] then Some(cache[host][key]) else None
  }

  /** A host is answered from what is published for it and for no other. */
  lemma LookupExactly(cache: map<string, Snapshot>, host: string, key: string, item: CacheItem)
    ensures Lookup(cache, host, key) == Some(item) <==>
              host in cache && key in cache[host] && cache[host][key] == item
    ensures host !in cache ==> Lookup(cache, host, key).None?
  {
  }

  /** `get_cache_file`; `None` stands for the 404 reply. */
  method GetCacheFile(coding: PercentCoding, tail: string, host: string, storage: DomainStorage)
    returns (r: Option<(string, CacheItem)>)
    ensures var key := RequestKey(coding, tail);
            r == if key.Some? && Lookup(storage.View().cache, host, key.value).Some?
                 then Some((key.value, Lookup(storage.View().cache, host, key.value).value)) else None
  {
    var sanitized := SanitizePath(coding, tail);
    if sanitized.None? {
      return None;
    }
    var key := if sanitized.value == "/" || sanitized.value == "" then "index.html" else sanitized.value[1..];
    var item := storage.GetFile(host, key);
    r := if item.Some? then Some((key, item.value)) else None;
  }

  // Which bytes

  datatype Bound = Unbounded | Included(at: U64) | Excluded(at: U64)

  /** `bytes_range`: `None` is a bad range. Only the first range of a header is looked at. */
  function BytesRange(range: Option<seq<(Bound, Bound)>>, maxLen: U64): Option<(U64, U64)> {
    if range.None? || range.value == [] then Some((0, maxLen))
    else
      var (from, to) := range.value[0];
      var start := match from
        case Unbounded => 0
        case Included(s) => s
        case Excluded(s) => WrappingAdd64(s, 1);
      var end := match to
        case Unbounded => maxLen
        case Included(s) => if s == maxLen then s else WrappingAdd64(s, 1)
        case Excluded(s) => s;
      if start < end && end <= maxLen then Some((start, end)) else None
  }

  /** Section 2.1 of RFC 7233: bytes `first` to `last` inclusive, of those the representation has. */
  function FirstLast(first: nat, last: nat, len: nat): Option<(nat, nat)> {
    if first <= last && first < len then Some((first, if last < len then last + 1 else len)) else None
  }

  /** Section 2.1 of RFC 7233: the last `n` bytes, or all when there are fewer. */
  function Suffix(n: nat, len: nat): Option<(nat, nat)> {
    if n == 0 then None else Some((if n < len then len - n else 0, len))
  }

  /** Whatever the header, an accepted range lies inside the representation, and an explicit one is not empty. */
  lemma RangeInBounds(range: Option<seq<(Bound, Bound)>>, maxLen: U64)
    ensures var r := BytesRange(range, maxLen);
            r.Some? ==>
              && r.value.0 <= r.value.1 <= maxLen
              && (range.Some? && range.value != [] ==> r.value.0 < r.value.1)
    ensures range.None? ==> BytesRange(range, maxLen) == Some((0, maxLen))
  {
  }

  /** A first-last range means what the RFC says, except that a `last` beyond the length is refused, not clamped. */
  lemma FirstLastExactlyWhen(first: U64, last: U64, len: U64)
    ensures (BytesRange(Some([(Included(first), Included(last))]), len) == FirstLast(first, last, len)) <==>
              (last <= len || FirstLast(first, last, len).None?)
    ensures len < last ==> BytesRange(Some([(Included(first), Included(last))]), len).None?
  {
  }

  /** An open-ended range always means what the RFC says. */
  lemma FromFirst(first: U64, len: U64)
    ensures BytesRange(Some([(Included(first), Unbounded)]), len) ==
              (if first < len then FirstLast(first, len, len) else None)
  {
  }

  /** A suffix range is read as a prefix; it means what the RFC says only when it asks for exactly everything. */
  lemma SuffixExactlyWhen(n: U64, len: U64)
    ensures BytesRange(Some([(Unbounded, Included(n))]), len) == Suffix(n, len) <==> n == len
    ensures n < len ==> BytesRange(Some([(Unbounded, Included(n))]), len) == Some((0, n + 1))
    ensures len < n ==> BytesRange(Some([(Unbounded, Included(n))]), len).None?
  {
  }

  /** Only the first of several ranges counts, and a header without any asks for everything. */
  lemma FirstRangeCounts(first: (Bound, Bound), more: seq<(Bound, Bound)>, len: U64)
    ensures BytesRange(Some([first] + more), len) == BytesRange(Some([first]), len)
    ensures BytesRange(Some([]), len) == BytesRange(None, len) == Some((0, len))
  {
  }

  /** The other forms of a bound, by those that include their position; over all u64, with wrapping addition. */
  lemma OtherBounds(at: U64, other: Bound, len: U64)
    ensures BytesRange(Some([(Unbounded, other)]), len) == BytesRange(Some([(Included(0), other)]), len)
    ensures BytesRange(Some([(Excluded(at), other)]), len) ==
              BytesRange(Some([(Included(if at + 1 < U64_LIMIT then at + 1 else 0), other)]), len)
    ensures BytesRange(Some([(other, Excluded(at))]), len) ==
              if 0 < at <= len then BytesRange(Some([(other, Included(at - 1))]), len) else None
  {
  }

  // Under which headers

  datatype Header =
    | ContentType | AcceptRanges | CacheControl | LastModified | ContentRange | ContentLength | ContentEncoding

  datatype Value =
    | Mime(mime: string)
    | BytesUnit
    | MaxAge(seconds: nat)
    | NoCache
    | Time(at: nat)
    | Span(first: nat, last: nat, total: nat)
    | Unsatisfied(total: nat)
    | Length(length: nat)
    | Gzip

  datatype Reply = Reply(status: nat, headers: map<Header, Value>, body: Bytes)

  const NOT_FOUND := Reply(404, map[], [])

  /** The headers of an item, put over those already there. */
  function WithItemHeaders(headers: map<Header, Value>, item: CacheItem, modified: Option<nat>): map<Header, Value> {
    var base := headers[ContentType := Mime(item.mime)][AcceptRanges := BytesUnit];
    var control := match item.expire
      case None => base
      case Some(expire) => base[CacheControl := if expire != 0 then MaxAge(expire) else NoCache];
    match modified
    case None => control
    case Some(at) => control[LastModified := Time(at)]
  }

  function ItemHeaders(item: CacheItem, modified: Option<nat>): map<Header, Value> {
    WithItemHeaders(map[], item, modified)
  }

  /** Each header that an item sets, and none besides. */
  lemma HeadersOfItem(item: CacheItem, modified: Option<nat>, header: Header)
    ensures var headers := ItemHeaders(item, modified);
            header in headers <==>
              match header
              case ContentType => true
              case AcceptRanges => true
              case CacheControl => item.expire.Some?
              case LastModified => modified.Some?
              case _ => false
    ensures var headers := ItemHeaders(item, modified);
            && headers[ContentType] == Mime(item.mime) && headers[AcceptRanges] == BytesUnit
            && (item.expire.Some? ==> (headers[CacheControl] == NoCache <==> item.expire.value == 0))
            && (item.expire.Some? && item.expire.value > 0 ==> headers[CacheControl] == MaxAge(item.expire.value))
            && (modified.Some? ==> headers[LastModified] == Time(modified.value))
  {
  }

  /** A header that items do not set can as well be put after theirs. */
  lemma InsertLater(headers: map<Header, Value>, item: CacheItem, modified: Option<nat>, header: Header, value: Value)
    requires header !in {ContentType, AcceptRanges, CacheControl, LastModified}
    ensures WithItemHeaders(headers[header := value], item, modified)
              == WithItemHeaders(headers, item, modified)[header := value]
  {
  }

  /** The reply for the bytes `[start, end)` of a representation of length `len`. */
  function PartReply(item: CacheItem, body: Bytes, start: nat, end: nat, len: nat, modified: Option<nat>): Reply
    requires start < end <= len || (start == 0 && end == len)
  {
    var headers := ItemHeaders(item, modified);
    if end - start != len then
      Reply(206, headers[ContentRange := Span(start, end - 1, len)][ContentLength := Length(end - start)], body)
    else
      Reply(200, headers[ContentLength := Length(len)], body)
  }

  function BadRangeReply(len: nat): Reply {
    Reply(416, map[ContentRange := Unsatisfied(len)], [])
  }

  function CacheReply(item: CacheItem, bytes: Bytes, range: Option<seq<(Bound, Bound)>>, modified: Option<nat>): Reply
    requires |bytes| < U64_LIMIT
  {
    match BytesRange(range, |bytes|)
    case None => BadRangeReply(|bytes|)
    case Some((start, end)) => PartReply(item, bytes[start..end], start, end, |bytes|, modified)
  }

  /** A file stream stops at `end` or at the end of the file. */
  function Stream(file: Bytes, start: nat, end: nat): Bytes
    requires start <= end
  {
    if |file| <= start then [] else file[start..if end <= |file| then end else |file|]
  }

  /** `file` is what opening the path finds now; the length is the one recorded with the item. */
  function FileReply(
    item: CacheItem, file: Option<Bytes>, range: Option<seq<(Bound, Bound)>>, modified: Option<nat>): Reply
    requires item.len < U64_LIMIT
  {
    if file.None? then NOT_FOUND
    else
      match BytesRange(range, item.len)
      case None => BadRangeReply(item.len)
      case Some((start, end)) => PartReply(item, Stream(file.value, start, end), start, end, item.len, modified)
  }

  /** A file that has shrunk since its length was recorded yields what is left of it. */
  lemma StreamExactly(file: Bytes, start: nat, end: nat)
    requires start <= end
    ensures forall k :: 0 <= k < |Stream(file, start, end)| ==>
              start + k < |file| && Stream(file, start, end)[k] == file[start + k]
    ensures start <= |file| ==> |Stream(file, start, end)| == if end <= |file| then end - start else |file| - start
    ensures |file| < start ==> Stream(file, start, end) == []
  {
    if start < |file| {
      var stop := if end <= |file| then end else |file|;
      assert Stream(file, start, end) == file[start..stop];
    } else {
      assert Stream(file, start, end) == [];
    }
  }

  function Open(disk: Disk, ref: FileRef): Option<Bytes> {
    if ref.slot in disk && ref.path in disk[ref.slot].files then Some(disk[ref.slot].files[ref.path]) else None
  }

  ghost predicate Fits(item: CacheItem) {
    && item.len < U64_LIMIT
    && (item.data.CacheBlock? ==> |item.data.bytes| < U64_LIMIT)
  }

  /** `cache_or_file_reply`, once the conditional headers have let the request through with a range. */
  function ItemReply(
    item: CacheItem, disk: Disk, accept: Option<string>, range: Option<seq<(Bound, Bound)>>, modified: Option<nat>)
    : Reply
    requires Fits(item)
  {
    match item.data
    case FileBlock(path) => FileReply(item, Open(disk, path), range, modified)
    case CacheBlock(bytes, compressed, path) =>
      if !AcceptsGzip(accept) && compressed then FileReply(item, Open(disk, path), range, modified)
      else
        var reply := CacheReply(item, bytes, range, modified);
        if AcceptsGzip(accept) && compressed then reply.(headers := reply.headers[ContentEncoding := Gzip]) else reply
  }

  /** A response under construction, as hyper builds it. */
  class Response {
    var status: nat
    var headers: map<Header, Value>
    var body: Bytes

    constructor (body: Bytes)
      ensures Content() == Reply(200, map[], body)
    {
      this.status := 200;
      this.headers := map[];
      this.body := body;
    }

    function Content(): Reply
      reads this
    {
      Reply(status, headers, body)
    }

    method SetStatus(status: nat)
      modifies this
      ensures Content() == old(Content()).(status := status)
    {
      this.status := status;
    }

    method Insert(header: Header, value: Value)
      modifies this
      ensures Content() == old(Content()).(headers := old(headers)[header := value])
    {
      headers := headers[header := value];
    }
  }

  method CacheItemToResponseHeader(resp: Response, item: CacheItem, modified: Option<nat>)
    modifies resp
    ensures resp.Content() == old(resp.Content()).(headers := WithItemHeaders(old(resp.headers), item, modified))
  {
    resp.Insert(ContentType, Mime(item.mime));
    resp.Insert(AcceptRanges, BytesUnit);
    if item.expire.Some? {
      if item.expire.value != 0 {
        resp.Insert(CacheControl, MaxAge(item.expire.value));
      } else {
        resp.Insert(CacheControl, NoCache);
      }
    }
    if modified.Some? {
      resp.Insert(LastModified, Time(modified.value));
    }
  }

  method BuildCacheReply(item: CacheItem, bytes: Bytes, range: Option<seq<(Bound, Bound)>>, modified: Option<nat>)
    returns (resp: Response)
    requires |bytes| < U64_LIMIT
    ensures fresh(resp) && resp.Content() == CacheReply(item, bytes, range, modified)
  {
    var len := |bytes|;
    var part := BytesRange(range, len);
    if part.None? {
      resp := new Response([]);
      resp.SetStatus(416);
      resp.Insert(ContentRange, Unsatisfied(len));
      return;
    }
    var (start, end) := part.value;
    var subLen := end - start;
    hide WithItemHeaders;
    resp := new Response(bytes[start..end]);
    if subLen != len {
      resp.SetStatus(206);
      resp.Insert(ContentRange, Span(start, end - 1, len));
      InsertLater(map[], item, modified, ContentRange, Span(start, end - 1, len));
      InsertLater(resp.headers, item, modified, ContentLength, Length(subLen));
      len := subLen;
      resp.Insert(ContentLength, Length(subLen));
    } else {
      InsertLater(map[], item, modified, ContentLength, Length(len));
      resp.Insert(ContentLength, Length(len));
    }
    CacheItemToResponseHeader(resp, item, modified);
  }

  method BuildFileReply(item: CacheItem, file: Option<Bytes>, range: Option<seq<(Bound, Bound)>>, modified: Option<nat>)
    returns (resp: Response)
    requires item.len < U64_LIMIT
    ensures fresh(resp) && resp.Content() == FileReply(item, file, range, modified)
  {
    if file.None? {
      resp := new Response([]);
      resp.SetStatus(404);
      return;
    }
    var len := item.len;
    var part := BytesRange(range, len);
    if part.None? {
      resp := new Response([]);
      resp.SetStatus(416);
      resp.Insert(ContentRange, Unsatisfied(len));
      return;
    }
    hide WithItemHeaders;
    var (start, end) := part.value;
    var subLen := end - start;
    resp := new Response(Stream(file.value, start, end));
    CacheItemToResponseHeader(resp, item, modified);
    if subLen != len {
      resp.SetStatus(206);
      resp.Insert(ContentRange, Span(start, end - 1, len));
      resp.Insert(ContentLength, Length(subLen));
    } else {
      resp.Insert(ContentLength, Length(len));
    }
  }

  /** What the conditional headers of a request lead to: an answer without a body, or a range to be sent. */
  datatype Cond = NoBody(reply: Reply) | WithBody(range: Option<seq<(Bound, Bound)>>)

  function ConditionalReply(
    item: CacheItem, disk: Disk, accept: Option<string>, cond: Cond, modified: Option<nat>): Reply
    requires Fits(item)
  {
    match cond
    case NoBody(reply) => reply
    case WithBody(range) => ItemReply(item, disk, accept, range, modified)
  }

  method CacheOrFileReply(item: CacheItem, disk: Disk, accept: Option<string>, cond: Cond, modified: Option<nat>)
    returns (resp: Response)
    requires Fits(item)
    ensures fresh(resp) && resp.Content() == ConditionalReply(item, disk, accept, cond, modified)
  {
    if cond.NoBody? {
      resp := new Response(cond.reply.body);
      resp.SetStatus(cond.reply.status);
      resp.headers := cond.reply.headers;
      return;
    }
    match item.data
    case FileBlock(path) => resp := BuildFileReply(item, Open(disk, path), cond.range, modified);
    case CacheBlock(bytes, compressed, path) =>
      if !AcceptsGzip(accept) && compressed {
        resp := BuildFileReply(item, Open(disk, path), cond.range, modified);
      } else {
        resp := BuildCacheReply(item, bytes, cond.range, modified);
        if AcceptsGzip(accept) && compressed {
          resp.Insert(ContentEncoding, Gzip);
        }
      }
  }

  // What the replies mean

  /** The item was made from the file that is still behind it, and compression can be undone. */
  ghost predicate Faithful(env: Env, gunzip: Bytes -> Bytes, item: CacheItem, disk: Disk, content: Bytes) {
    && (forall b :: gunzip(env.gzip(b)) == b)
    && Open(disk, item.data.path) == Some(content)
    && item == MakeItem(env, item.data.path.slot, item.data.path.path, content)
    && Fits(item)
  }

  /** Undo the coding a reply declares. */
  function Decoded(gunzip: Bytes -> Bytes, reply: Reply): Bytes {
    if ContentEncoding in reply.headers && reply.headers[ContentEncoding] == Gzip then gunzip(reply.body)
    else reply.body
  }

  predicate IsCompressed(item: CacheItem) {
    item.data.CacheBlock? && item.data.compressed
  }

  lemma ItemHeadersKeys(item: CacheItem, modified: Option<nat>)
    ensures ItemHeaders(item, modified).Keys <= {ContentType, AcceptRanges, CacheControl, LastModified}
  {
  }

  /** A whole reply, from memory or from disk, compressed or not, stands for the content of the file. */
  lemma WholeReplyIsContent(
    env: Env, gunzip: Bytes -> Bytes, item: CacheItem, disk: Disk, content: Bytes,
    accept: Option<string>, modified: Option<nat>)
    requires Faithful(env, gunzip, item, disk, content)
    ensures var reply := ItemReply(item, disk, accept, None, modified);
            && reply.status == 200
            && Decoded(gunzip, reply) == content
            && reply.headers[ContentLength] == Length(|reply.body|)
            && (ContentEncoding in reply.headers <==>
                  IsCompressed(item) && accept.Some? && Contains(accept.value, "gzip"))
  {
    hide Contains, KeyOf, Extension, ItemHeaders;
    ItemHeadersKeys(item, modified);
    assert content[0..|content|] == content;
    if item.data.CacheBlock? {
      assert item.data.bytes[0..|item.data.bytes|] == item.data.bytes;
    }
  }

  /** A client that sends no Accept-Encoding never gets a coded reply, and the whole file as it is. */
  lemma NoHeaderNoGzip(
    env: Env, gunzip: Bytes -> Bytes, item: CacheItem, disk: Disk, content: Bytes,
    range: Option<seq<(Bound, Bound)>>, modified: Option<nat>)
    requires Fits(item)
    ensures ContentEncoding !in ItemReply(item, disk, None, range, modified).headers
    ensures Faithful(env, gunzip, item, disk, content) ==> ItemReply(item, disk, None, None, modified).body == content
  {
    hide KeyOf, Extension, BytesRange, Faithful, Contains;
    ItemHeadersKeys(item, modified);
    hide ItemHeaders;
    if Faithful(env, gunzip, item, disk, content) {
      WholeReplyIsContent(env, gunzip, item, disk, content, None, modified);
    }
  }

  /**
   416 exactly for ranges that are not accepted, and 404 exactly where a file is to be sent that is gone. (A 416 for
   a compressed item declares gzip all the same.)
   */
  lemma ErrorReplies(
    item: CacheItem, disk: Disk, accept: Option<string>, range: Option<seq<(Bound, Bound)>>, modified: Option<nat>)
    requires Fits(item)
    ensures var reply := ItemReply(item, disk, accept, range, modified);
            var fromFile := item.data.FileBlock? ||
                            (item.data.compressed && !(accept.Some? && Contains(accept.value, "gzip")));
            var len := if fromFile then item.len else |item.data.bytes|;
            var gone := fromFile && Open(disk, item.data.path).None?;
            && (reply.status == 404 <==> gone)
            && (reply.status == 416 <==> !gone && BytesRange(range, len).None?)
            && (reply.status == 404 ==> reply.body == [] && reply.headers == map[])
            && (reply.status == 416 ==>
                  && reply.body == []
                  && reply.headers - {ContentEncoding} == map[ContentRange := Unsatisfied(len)]
                  && (ContentEncoding in reply.headers <==> IsCompressed(item) && !fromFile))
            && reply.status in {200, 206, 404, 416}
  {
    hide Contains, BytesRange, ItemHeaders, Stream;
    assert forall r :: BytesRange(range, r).Some? ==>
      BytesRange(range, r).value.0 <= BytesRange(range, r).value.1 <= r by {
      forall r: U64 ensures BytesRange(range, r).Some? ==>
        BytesRange(range, r).value.0 <= BytesRange(range, r).value.1 <= r
      {
        RangeInBounds(range, r);
      }
    }
  }

  /** For uncompressed bytes it makes no difference whether a reply comes from memory or from the file. */
  lemma MemoryEqualsDisk(item: CacheItem, bytes: Bytes, range: Option<seq<(Bound, Bound)>>, modified: Option<nat>)
    requires item.len == |bytes| < U64_LIMIT
    ensures CacheReply(item, bytes, range, modified) == FileReply(item, Some(bytes), range, modified)
  {
  }

  // Reassembling a file from ranges

  /** The bytes a client that accepts `accept` is shown. */
  function Representation(item: CacheItem, accept: Option<string>, content: Bytes): Bytes {
    if item.data.CacheBlock? && (AcceptsGzip(accept) || !item.data.compressed) then item.data.bytes else content
  }

  function Slice(a: U64, b: U64): Option<seq<(Bound, Bound)>>
    requires 0 < b
  {
    Some([(Included(a), Included(b - 1))])
  }

  /**
   A reply for the slice `[a, b)`: its bytes, their number, and status 206 with the matching
   Content-Range exactly when that is not everything (sections 4.1 and 4.2 of RFC 7233).
   */
  ghost predicate RepliesSlice(reply: Reply, whole: Bytes, a: nat, b: nat)
    requires a < b <= |whole|
  {
    && reply.body == whole[a..b]
    && ContentLength in reply.headers && reply.headers[ContentLength] == Length(|reply.body|)
    && reply.status == (if |reply.body| < |whole| then 206 else 200)
    && (|reply.body| < |whole| <==> ContentRange in reply.headers)
    && (|reply.body| < |whole| ==> reply.headers[ContentRange] == Span(a, b - 1, |whole|))
  }

  lemma PartRepliesSlice(item: CacheItem, whole: Bytes, a: nat, b: nat, modified: Option<nat>)
    requires a < b <= |whole|
    ensures var reply := PartReply(item, whole[a..b], a, b, |whole|, modified);
            && RepliesSlice(reply, whole, a, b)
            && RepliesSlice(reply.(headers := reply.headers[ContentEncoding := Gzip]), whole, a, b)
  {
  }

  lemma SliceReply(
    env: Env, gunzip: Bytes -> Bytes, item: CacheItem, disk: Disk, content: Bytes,
    accept: Option<string>, modified: Option<nat>, a: U64, b: U64)
    requires Faithful(env, gunzip, item, disk, content)
    requires a < b <= |Representation(item, accept, content)|
    ensures RepliesSlice(
              ItemReply(item, disk, accept, Slice(a, b), modified), Representation(item, accept, content), a, b)
  {
    hide AcceptsGzip, KeyOf, Extension, PartReply, RepliesSlice;
    PartRepliesSlice(item, Representation(item, accept, content), a, b, modified);
  }

  ghost predicate IsCut(cuts: seq<U64>, len: nat) {
    && cuts != [] && cuts[0] == 0 && cuts[|cuts| - 1] == len
    && forall i :: 0 <= i < |cuts| - 1 ==> cuts[i] < cuts[i + 1]
  }

  /** The bodies of the replies to the first `n` slices of a cut, one after the other. */
  ghost function Reassembled(
    item: CacheItem, disk: Disk, accept: Option<string>, modified: Option<nat>, cuts: seq<U64>, n: nat): Bytes
    requires Fits(item) && n < |cuts| && forall i :: 0 <= i < |cuts| - 1 ==> cuts[i] < cuts[i + 1]
  {
    if n == 0 then []
    else Reassembled(item, disk, accept, modified, cuts, n - 1)
         + ItemReply(item, disk, accept, Slice(cuts[n - 1], cuts[n]), modified).body
  }

  lemma {:induction false} CutsIncrease(cuts: seq<U64>, i: nat, j: nat)
    requires forall k :: 0 <= k < |cuts| - 1 ==> cuts[k] < cuts[k + 1]
    requires i <= j < |cuts|
    ensures cuts[i] <= cuts[j]
  {
    if i < j {
      CutsIncrease(cuts, i, j - 1);
    }
  }

  lemma {:induction false} PrefixReassembles(
    env: Env, gunzip: Bytes -> Bytes, item: CacheItem, disk: Disk, content: Bytes,
    accept: Option<string>, modified: Option<nat>, cuts: seq<U64>, n: nat)
    requires Faithful(env, gunzip, item, disk, content)
    requires IsCut(cuts, |Representation(item, accept, content)|) && n < |cuts|
    ensures cuts[n] <= |Representation(item, accept, content)|
    ensures Reassembled(item, disk, accept, modified, cuts, n) == Representation(item, accept, content)[..cuts[n]]
  {
    hide Faithful, Representation, ItemReply;
    var whole := Representation(item, accept, content);
    CutsIncrease(cuts, n, |cuts| - 1);
    if n > 0 {
      PrefixReassembles(env, gunzip, item, disk, content, accept, modified, cuts, n - 1);
      SliceReply(env, gunzip, item, disk, content, accept, modified, cuts[n - 1], cuts[n]);
      assert whole[..cuts[n]] == whole[..cuts[n - 1]] + whole[cuts[n - 1]..cuts[n]];
    }
  }

  /** However a file is cut into adjacent ranges, the replies put together are the whole reply. */
  lemma RangesReassemble(
    env: Env, gunzip: Bytes -> Bytes, item: CacheItem, disk: Disk, content: Bytes,
    accept: Option<string>, modified: Option<nat>, cuts: seq<U64>)
    requires Faithful(env, gunzip, item, disk, content)
    requires IsCut(cuts, |ItemReply(item, disk, accept, None, modified).body|)
    ensures Reassembled(item, disk, accept, modified, cuts, |cuts| - 1)
              == ItemReply(item, disk, accept, None, modified).body
  {
    hide AcceptsGzip, KeyOf, Extension, ItemHeaders;
    var whole := Representation(item, accept, content);
    assert whole == ItemReply(item, disk, accept, None, modified).body by {
      assert whole[0..|whole|] == whole;
      assert content[0..|content|] == content;
    }
    hide Faithful, Representation, ItemReply;
    PrefixReassembles(env, gunzip, item, disk, content, accept, modified, cuts, |cuts| - 1);
    assert whole[..|whole|] == whole;
  }
}
