/** What the two ends of a session have in common (`rtsp_session.hpp`); no code enters the recording state. */
module RtspSession {

  datatype State = Init | Ready | Playing
}
