/** The settings object shared by the Go services (`goutils/settings`): the decoded
    JSON configuration and the defaults filled in after decoding. Only the fields
    `SetDefaults` reads or writes, and a few neighbours to show they stay as they are,
    are modelled. */
module GoUtilsSettings {
  import opened Wrappers
  import opened SettingsDefaults

  /** A token-bucket rate limit. */
  datatype RateLimiter = RateLimiter(burst: int, requestsPerSec: int)

  /** The `web3_storage` section, a struct held by value. */
  datatype Web3Storage = Web3Storage(
    url: string,
    apiToken: string,
    timeoutSecs: int,
    maxIdleConns: int,
    idleConnTimeout: int,
    rateLimiter: Option<RateLimiter>,
    uploadURLSuffix: string)

  /** The `dag_verifier` section, a struct held by value. */
  datatype DagVerifierSettings = DagVerifierSettings(
    slackNotifyURL: string,
    runIntervalSecs: int,
    suppressNotificationTimeSecs: int,
    summaryProjectsToTrack: seq<string>,
    ipfsRateLimiter: Option<RateLimiter>,
    concurrency: int,
    redisPoolSize: int,
    pruningVerification: bool)

  class SettingsObj {
    var host: string
    var port: int
    var ipfsURL: string
    /** The `*int` retry count: None stands for a nil pointer. */
    var retryCount: Option<int>
    var retryIntervalSecs: int
    var httpClientTimeoutSecs: int
    var payloadCommitInterval: int
    var payloadCommitConcurrency: int
    var containerHeight: int
    var web3Storage: Web3Storage
    var dagVerifierSettings: DagVerifierSettings
    var useConsensus: bool
    var instanceId: string

    /** Every setting `SetDefaults` fills in has a usable value. */
    predicate Configured()
      reads this
    {
      && retryCount.Some? && retryCount.value != 0
      && retryIntervalSecs != 0
      && httpClientTimeoutSecs != 0
      && payloadCommitConcurrency != 0
      && web3Storage.uploadURLSuffix != ""
      && dagVerifierSettings.runIntervalSecs != 0
      && dagVerifierSettings.suppressNotificationTimeSecs != 0
      && dagVerifierSettings.concurrency != 0
    }

    /** `SetDefaults`: a nil retry count becomes 10 and 0 becomes `MaxInt`; zero retry
        interval, HTTP timeout and commit concurrency become 5, 10 and 20; an empty
        upload suffix becomes "/upload"; zero DAG-verifier run interval, notification
        suppression time and concurrency become 300, 1800 and 10. An empty Slack URL
        is only warned about. Nothing outside these fields changes, a configured
        object is left as it is, and afterwards the object is configured. */
    method SetDefaults()
      modifies this`retryCount, this`retryIntervalSecs, this`httpClientTimeoutSecs,
               this`payloadCommitConcurrency, this`web3Storage, this`dagVerifierSettings
      ensures retryCount == RetryDefault(old(retryCount), 10)
      ensures retryIntervalSecs == IntDefault(old(retryIntervalSecs), 5)
      ensures httpClientTimeoutSecs == IntDefault(old(httpClientTimeoutSecs), 10)
      ensures payloadCommitConcurrency == IntDefault(old(payloadCommitConcurrency), 20)
      ensures web3Storage == old(web3Storage).(uploadURLSuffix := StringDefault(old(web3Storage.uploadURLSuffix), "/upload"))
      ensures dagVerifierSettings == old(dagVerifierSettings).(
                runIntervalSecs := IntDefault(old(dagVerifierSettings.runIntervalSecs), 300),
                suppressNotificationTimeSecs := IntDefault(old(dagVerifierSettings.suppressNotificationTimeSecs), 1800),
                concurrency := IntDefault(old(dagVerifierSettings.concurrency), 10))
      ensures Configured()
      ensures old(Configured()) ==>
                && retryCount == old(retryCount) && retryIntervalSecs == old(retryIntervalSecs)
                && httpClientTimeoutSecs == old(httpClientTimeoutSecs)
                && payloadCommitConcurrency == old(payloadCommitConcurrency)
                && web3Storage == old(web3Storage) && dagVerifierSettings == old(dagVerifierSettings)
    {
      SetServiceDefaults();
      SetDagVerifierDefaults();
    }

    /** The first half of `SetDefaults`: the retry, timeout, concurrency and upload settings. */
    method SetServiceDefaults()
      modifies this`retryCount, this`retryIntervalSecs, this`httpClientTimeoutSecs,
               this`payloadCommitConcurrency, this`web3Storage
      ensures retryCount == RetryDefault(old(retryCount), 10)
      ensures retryIntervalSecs == IntDefault(old(retryIntervalSecs), 5)
      ensures httpClientTimeoutSecs == IntDefault(old(httpClientTimeoutSecs), 10)
      ensures payloadCommitConcurrency == IntDefault(old(payloadCommitConcurrency), 20)
      ensures web3Storage == old(web3Storage).(uploadURLSuffix := StringDefault(old(web3Storage.uploadURLSuffix), "/upload"))
    {
      if retryCount.None? {
        retryCount := Some(10);
      } else if retryCount.value == 0 {
        retryCount := Some(MaxInt);
      }
      if retryIntervalSecs == 0 {
        retryIntervalSecs := 5;
      }
      if httpClientTimeoutSecs == 0 {
        httpClientTimeoutSecs := 10;
      }
      if payloadCommitConcurrency == 0 {
        payloadCommitConcurrency := 20;
      }
      if web3Storage.uploadURLSuffix == "" {
        web3Storage := web3Storage.(uploadURLSuffix := "/upload");
      }
    }

    /** The second half of `SetDefaults`: the `dag_verifier` section. */
    method SetDagVerifierDefaults()
      modifies this`dagVerifierSettings
      ensures dagVerifierSettings == old(dagVerifierSettings).(
                runIntervalSecs := IntDefault(old(dagVerifierSettings.runIntervalSecs), 300),
                suppressNotificationTimeSecs := IntDefault(old(dagVerifierSettings.suppressNotificationTimeSecs), 1800),
                concurrency := IntDefault(old(dagVerifierSettings.concurrency), 10))
    {
      if dagVerifierSettings.runIntervalSecs == 0 {
        dagVerifierSettings := dagVerifierSettings.(runIntervalSecs := 300);
      }
      // An empty Slack notification URL is only logged.
      if dagVerifierSettings.suppressNotificationTimeSecs == 0 {
        dagVerifierSettings := dagVerifierSettings.(suppressNotificationTimeSecs := 1800);
      }
      if dagVerifierSettings.concurrency == 0 {
        dagVerifierSettings := dagVerifierSettings.(concurrency := 10);
      }
    }
  }
}
