/** The application's configuration constants (config.js). */
module Config {

  /** Maximum number of entries shown on the leaderboard (LEADERBOARD_LIMIT). */
  const LeaderboardLimit: nat := 9

  /** bcrypt cost factor (SALT_ROUNDS); hashing itself is a parameter of the model. */
  const SaltRounds: nat := 10
}
