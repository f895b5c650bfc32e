/** Retained messages as the drivers rely on them. */
module Mqtt {
  /** A retained message replaces the one before; an empty one clears it (MQTT 3.1.1, section 3.3.1.3). */
  function Publish(retained: map<string, string>, topic: string, payload: string): map<string, string> {
    if payload == "" then retained - {topic} else retained[topic := payload]
  }
}
