/** Discord's snowflake identifiers, as the bot stores them in its tables. */
module Ids {
  type UserId = int
  type RoleId = int
  type GuildId = int
}
