/** Commands, header names and acknowledgement modes (frame.go). */
module Names {
  const CMD_CONNECTED: string := "CONNECTED"
  const CMD_MESSAGE: string := "MESSAGE"
  const CMD_CONNECT: string := "CONNECT"
  const CMD_STOMP: string := "STOMP"
  const CMD_SEND: string := "SEND"
  const CMD_SUBSCRIBE: string := "SUBSCRIBE"
  const CMD_UNSUBSCRIBE: string := "UNSUBSCRIBE"
  const CMD_ACK: string := "ACK"
  const CMD_BEGIN: string := "BEGIN"
  const CMD_COMMIT: string := "COMMIT"
  const CMD_ABORT: string := "ABORT"
  const CMD_DISCONNECT: string := "DISCONNECT"

  const KEY_ACCEPT_VERSION: string := "accept-version"
  const KEY_ACK: string := "ack"
  const KEY_CONTENT_LENGTH: string := "content-length"
  const KEY_CONTENT_TYPE: string := "content-type"
  const KEY_DESTINATION: string := "destination"
  const KEY_HEART_BEAT: string := "heart-beat"
  const KEY_HOST: string := "host"
  const KEY_ID: string := "id"
  const KEY_LOGIN: string := "login"
  const KEY_MESSAGE_ID: string := "message-id"
  const KEY_PASSCODE: string := "passcode"
  const KEY_SERVER: string := "server"
  const KEY_SESSION: string := "session"
  const KEY_SUBSCRIPTION: string := "subscription"
  const KEY_TRANSACTION: string := "transaction"
  const KEY_VERSION: string := "version"

  const ACK_AUTO: string := "auto"
  const ACK_CLIENT: string := "client"
  const ACK_INDIVIDUAL: string := "client-individual"
}
