/** What the parts of the HTTP code share. */
module HttpCommon {
  datatype HttpError =
    | NoError | Protocol | Disconnected | Overflow | ConnectFailed | SocketError | Shutdown
    | OperationCancelled | Auth | CertificateExpired | StreamFailure | CacheFailure | DefaultError

  const SOCKET_EACCES: int := 13
  const SEC_E_CERT_EXPIRED: int := -2146893016

  /** HandleStreamClose: the error a closed stream means; a clean close may be the end of the input. */
  function StreamCloseError(code: int, validEnd: bool): (error: HttpError)
    ensures error == NoError <==> code == 0 && validEnd
    ensures error == Disconnected <==> code == 0 && !validEnd
    ensures error == Auth <==> code == SOCKET_EACCES
    ensures error == CertificateExpired <==> code == SEC_E_CERT_EXPIRED
    ensures error in {NoError, Disconnected, Auth, CertificateExpired, SocketError}
  {
    if code == 0 then (if validEnd then NoError else Disconnected)
    else if code == SOCKET_EACCES then Auth
    else if code == SEC_E_CERT_EXPIRED then CertificateExpired
    else SocketError
  }
}
