/** The options of one pod-log request. */
module LogOptions {
  import opened Wrappers

  /** A signed 64-bit integer, the type of the requested tail-line count. */
  newtype int64 = x: int | -0x8000_0000_0000_0000 <= x < 0x8000_0000_0000_0000

  /**
   * The fields of a pod-log request that the tool sets; every other field
   * keeps its zero value.  `tailLines` is None when the request asks for
   * the whole log.
   */
  datatype PodLogOptions = PodLogOptions(container: string, follow: bool, tailLines: Option<int64>)

  /**
   * Builds the request options: the container and the follow flag are
   * copied, and the tail count is filled in afterwards only when it was set
   * on the command line.
   */
  method NewPodLogOptions(containerName: string, follow: bool, count: int64, countSet: bool)
    returns (opts: PodLogOptions)
    ensures opts.container == containerName && opts.follow == follow
    ensures opts.tailLines.Some? <==> countSet
    ensures opts.tailLines.Some? ==> opts.tailLines.value == count
  {
    opts := PodLogOptions(containerName, follow, None);
    if countSet {
      opts := opts.(tailLines := Some(count));
    }
  }
}
