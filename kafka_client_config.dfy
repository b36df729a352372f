/**
 * The Kafka client configuration the server builds once at start-up from
 * its environment variables: a fixed client id and one broker, then `ssl`
 * and `sasl` added only when the environment asks for them.
 */
module KafkaClientConfig {

  import opened Wrappers

  /**
   * The environment variables the server reads; None is an unset variable.
   * KAFKA_BROKER, KAFKA_SECURITY_PROTOCOL, KAFKA_SASL_MECHANISM,
   * KAFKA_SASL_USERNAME, KAFKA_SASL_PASSWORD and KAFKA_INTAKE_TOPIC.
   */
  datatype Environment = Environment(
    broker: Option<string>,
    securityProtocol: Option<string>,
    saslMechanism: Option<string>,
    saslUsername: Option<string>,
    saslPassword: Option<string>,
    intakeTopic: Option<string>)

  datatype SaslConfig = SaslConfig(mechanism: string, username: string, password: string)

  /** The kafkajs client configuration; None is a property that was never set. */
  datatype KafkaConfig = KafkaConfig(
    clientId: string,
    brokers: seq<string>,
    ssl: Option<bool>,
    sasl: Option<SaslConfig>)

  const ClientId: string := "customer-support-intake"
  const DefaultBroker: string := "localhost:9092"
  const DefaultTopic: string := "intake"

  /** JavaScript truthiness of a string variable: set and not empty. */
  predicate Truthy(v: Option<string>) {
    v.Some? && v.value != ""
  }

  /** `v || fallback`: the variable's value when truthy, the fallback otherwise. */
  function OrElse(v: Option<string>, fallback: string): (r: string)
    ensures Truthy(v) ==> r == v.value
    ensures !Truthy(v) ==> r == fallback
  {
    if Truthy(v) then v.value else fallback
  }

  /** KAFKA_BROKER, or `localhost:9092` when it is unset or empty. */
  function Broker(env: Environment): (r: string)
    ensures Truthy(env.broker) ==> r == env.broker.value
    ensures !Truthy(env.broker) ==> r == "localhost:9092"
  {
    OrElse(env.broker, DefaultBroker)
  }

  /** KAFKA_INTAKE_TOPIC, or `intake` when it is unset or empty. */
  function IntakeTopic(env: Environment): (r: string)
    ensures Truthy(env.intakeTopic) ==> r == env.intakeTopic.value
    ensures !Truthy(env.intakeTopic) ==> r == "intake"
  {
    OrElse(env.intakeTopic, DefaultTopic)
  }

  /** The security protocols that turn TLS on. */
  predicate UsesTls(protocol: string) {
    protocol == "SSL" || protocol == "SASL_SSL"
  }

  /**
   * Builds `kafkaConfig`: the literal with client id and broker, then `ssl`
   * set when a security protocol is given (true exactly for `SSL` and
   * `SASL_SSL`), then `sasl` set when mechanism, user name and password are
   * all given, carrying exactly those three; a partial SASL setting adds
   * nothing. The two decisions are independent of each other.
   */
  method BuildKafkaConfig(env: Environment) returns (config: KafkaConfig)
    ensures config.clientId == ClientId && config.brokers == [Broker(env)]
    ensures config.ssl.Some? <==> Truthy(env.securityProtocol)
    ensures config.ssl == Some(true) <==> env.securityProtocol.Some? && UsesTls(env.securityProtocol.value)
    ensures config.sasl.Some? <==> Truthy(env.saslMechanism) && Truthy(env.saslUsername) && Truthy(env.saslPassword)
    ensures config.sasl.Some? ==>
              config.sasl.value == SaslConfig(env.saslMechanism.value, env.saslUsername.value, env.saslPassword.value)
  {
    config := KafkaConfig(ClientId, [Broker(env)], None, None);
    if Truthy(env.securityProtocol) {
      config := config.(ssl := Some(UsesTls(env.securityProtocol.value)));
    }
    if Truthy(env.saslMechanism) && Truthy(env.saslUsername) && Truthy(env.saslPassword) {
      config := config.(sasl := Some(SaslConfig(env.saslMechanism.value, env.saslUsername.value, env.saslPassword.value)));
    }
  }
}
