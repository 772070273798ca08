/** The bridge's tools as they would be seen through the timing wrapper.
    No tool is wrapped by `track_performance` in the source; these lemmas
    state how the replies of the pipe transport would be counted if one
    were. */
module Bridge {
  import AudacityPipe
  import Metrics

  /** If a tool were wrapped by `track_performance`: because
      `_send_command` turns every failure into a returned string rather
      than an exception, the wrapper would count those failures only
      through the `Error` prefix, and missing pipes, a failed open or write
      and an exception while reading would all count as errors. */
  lemma TransportFailuresCounted(env: AudacityPipe.PipeEnv)
    requires !AudacityPipe.Ready(env) || AudacityPipe.ReadLoop(env.inbound, "").Raised?
    ensures AudacityPipe.ExchangeReply(env).Replied?
    ensures !Metrics.Succeeded(Metrics.Returned(Metrics.Text(AudacityPipe.ExchangeReply(env).text)))
  {
  }

  /** If a tool were wrapped, the track listing of the bridge's example
      would count as a success. */
  lemma TrackListingSucceeds(env: AudacityPipe.PipeEnv)
    requires AudacityPipe.Ready(env)
    requires env.inbound == [AudacityPipe.Line("Track1\n"), AudacityPipe.Line("Track2\n"), AudacityPipe.Line("\n")]
    ensures AudacityPipe.ExchangeReply(env).Replied?
    ensures Metrics.Succeeded(Metrics.Returned(Metrics.Text(AudacityPipe.ExchangeReply(env).text)))
  {
    AudacityPipe.TrackListing(env);
    assert "Track1\nTrack2"[..5] != "Error";
  }
}
