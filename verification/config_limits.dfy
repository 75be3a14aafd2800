/** The table and buffer sizes shared by the config file and its adapter. */
module ConfigLimits {
  const CONFIG_MAX_KEY := 128
  const CONFIG_MAX_VALUE := 256
  const CONFIG_MAX_PAIRS := 64
}
