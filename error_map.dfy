/**
 * The translation of the ingest library's status codes into the outcomes an OBS
 * output reports (`_ftl_error_to_obs_error`).
 */
module ErrorMap {

  /**
   * The status codes of the FTL ingest library. `Unlisted(code)` stands for a value
   * of the C `int` that is none of the named codes' values: the numbers of the
   * `ftl_status_t` enumeration are not part of this model, and a named code is
   * never written as `Unlisted`.
   */
  datatype FtlStatus =
    | FtlSuccess
    | SocketNotConnected
    | MallocFailure
    | InternalError
    | ConfigError
    | NotActiveStream
    | NotConnected
    | AlreadyConnected
    | StatusTimeout
    | QueueFull
    | StatusWaitingForKeyFrame
    | QueueEmpty
    | NotInitialized
    | BadRequest
    | DnsFailure
    | ConnectError
    | UnsupportedMediaType
    | OldVersion
    | Unauthorized
    | AudioSsrcCollision
    | VideoSsrcCollision
    | StreamRejected
    | BadOrInvalidStreamKey
    | ChannelInUse
    | RegionUnsupported
    | NoMediaTimeout
    | UserDisconnect
    | UnknownErrorCode
    | Unlisted(code: int)

  /** The outcomes of an OBS output (`OBS_OUTPUT_SUCCESS`, `_ERROR`, `_CONNECT_FAILED`, `_DISCONNECTED`). */
  datatype ObsOutcome = Success | Error | ConnectFailed | Disconnected

  /** Statuses that end a session cleanly: success, or the user hanging up. */
  predicate EndsCleanly(s: FtlStatus) {
    s == FtlSuccess || s == UserDisconnect
  }

  /** Statuses by which the ingest server refuses or cannot be reached: the connection attempt failed. */
  predicate RefusesConnection(s: FtlStatus) {
    s in {BadRequest, DnsFailure, ConnectError, UnsupportedMediaType, OldVersion, Unauthorized,
          AudioSsrcCollision, VideoSsrcCollision, StreamRejected, BadOrInvalidStreamKey,
          ChannelInUse, RegionUnsupported}
  }

  /**
   * `_ftl_error_to_obs_error`: clean endings are a success, refused connections a
   * failed connect, a media timeout a disconnection, and everything else, unknown
   * codes included, a generic error.
   */
  function ToObsOutcome(s: FtlStatus): (r: ObsOutcome)
    ensures r == Success <==> EndsCleanly(s)
    ensures r == ConnectFailed <==> RefusesConnection(s)
    ensures r == Disconnected <==> s == NoMediaTimeout
    ensures r == Error <==> !EndsCleanly(s) && !RefusesConnection(s) && s != NoMediaTimeout
  {
    match s
    case FtlSuccess => Success
    case SocketNotConnected => Error
    case MallocFailure => Error
    case InternalError => Error
    case ConfigError => Error
    case NotActiveStream => Error
    case NotConnected => Error
    case AlreadyConnected => Error
    case StatusTimeout => Error
    case QueueFull => Error
    case StatusWaitingForKeyFrame => Error
    case QueueEmpty => Error
    case NotInitialized => Error
    case BadRequest => ConnectFailed
    case DnsFailure => ConnectFailed
    case ConnectError => ConnectFailed
    case UnsupportedMediaType => ConnectFailed
    case OldVersion => ConnectFailed
    case Unauthorized => ConnectFailed
    case AudioSsrcCollision => ConnectFailed
    case VideoSsrcCollision => ConnectFailed
    case StreamRejected => ConnectFailed
    case BadOrInvalidStreamKey => ConnectFailed
    case ChannelInUse => ConnectFailed
    case RegionUnsupported => ConnectFailed
    case NoMediaTimeout => Disconnected
    case UserDisconnect => Success
    case UnknownErrorCode => Error
    case Unlisted(_) => Error
  }
}
