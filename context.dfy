/**
 * The per-request correlation context: the request's correlation identifier
 * and the application name, exposed as the two extra fields of every
 * structured log line.
 */
module Context {
  import opened Wrappers

  datatype Context = Context(uuid: string, app: string)

  /** The `log` property: exactly the keys `ferrea_uuid` and `app`, holding the two fields. */
  function Log(c: Context): (m: map<string, string>)
    ensures m.Keys == {"ferrea_uuid", "app"}
    ensures m["ferrea_uuid"] == c.uuid && m["app"] == c.app
  {
    map["ferrea_uuid" := c.uuid, "app" := c.app]
  }

  /** The context a log map carries, if it has both keys. */
  function FromLog(m: map<string, string>): (r: Option<Context>)
    ensures r.Some? <==> "ferrea_uuid" in m && "app" in m
  {
    if "ferrea_uuid" in m && "app" in m then Some(Context(m["ferrea_uuid"], m["app"])) else None
  }

  /** The log map loses nothing: the context is recovered from it. */
  lemma LogRoundTrip(c: Context)
    ensures FromLog(Log(c)) == Some(c)
  {
  }

  /** A map with exactly the two keys is the log of the context read from it. */
  lemma FromLogRoundTrip(m: map<string, string>)
    requires m.Keys == {"ferrea_uuid", "app"}
    ensures FromLog(m).Some? && Log(FromLog(m).value) == m
  {
  }

  /** The contexts of the logging tests, empty strings included, pass through unchanged. */
  lemma LogExamples()
    ensures Log(Context("", "")) == map["ferrea_uuid" := "", "app" := ""]
    ensures Log(Context("abcdefg", ""))["ferrea_uuid"] == "abcdefg"
    ensures Log(Context("hijklmn", "Testing"))["app"] == "Testing"
  {
  }
}
