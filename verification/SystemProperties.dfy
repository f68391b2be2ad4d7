/** Android system properties: a missing property reads as the empty string. */
module SystemProperties {

  function Property(props: map<string, string>, key: string): string {
    if key in props then props[key] else ""
  }
}
